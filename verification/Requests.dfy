/**
 Requests to load a codeletset, and their validation.
 */
module Requests {
  import LinkedMaps

  type Name = LinkedMaps.Name

  const NAME_LEN: nat := 256
  const MAX_CODELETS_IN_SET: nat := 16

  // A map the loader asks for, with whether it can be created and registered in its codelet.
  datatype Symbol = Symbol(name: Name, def: LinkedMaps.Def, create: bool, register: bool)

  datatype Link = Link(map_: Name, linkedCodelet: Name, linkedMap: Name)

  // A codelet descriptor. The last fields are what the environment does with it: whether its file, memory
  // and VM are there, the relocations its loading makes, whether it then loads and compiles, the compiled
  // function, and whether memory is found to hook it and to unhook it.
  datatype Descriptor = Descriptor(
    name: Name, hook: Name, path: string, channels: seq<string>, links: seq<Link>, prio: int, thresh: int,
    available: bool, symbols: seq<Symbol>, compiles: bool, fn: nat, hookMemory: bool, unhookMemory: bool)

  datatype Request = Request(name: Name, codelets: seq<Descriptor>, memory: bool)

  predicate GoodString(s: string) {
    0 < |s| < NAME_LEN
  }

  predicate GoodLink(l: Link) {
    GoodString(l.map_.text) && GoodString(l.linkedCodelet.text) && GoodString(l.linkedMap.text)
  }

  ghost predicate GoodLinks(d: Descriptor) {
    && (forall i :: 0 <= i < |d.links| ==>
          && GoodLink(d.links[i])
          && d.links[i].linkedCodelet != d.name)
    && (forall i, j :: 0 <= i < j < |d.links| ==> d.links[i].map_ != d.links[j].map_)
    && (forall i, j :: 0 <= i < j < |d.links| ==>
          d.links[i].linkedCodelet != d.links[j].linkedCodelet || d.links[i].linkedMap != d.links[j].linkedMap)
  }

  ghost predicate GoodDescriptor(d: Descriptor) {
    && GoodString(d.name.text) && GoodString(d.hook.text) && GoodString(d.path)
    && (forall i :: 0 <= i < |d.channels| ==> GoodString(d.channels[i]))
    && GoodLinks(d)
  }

  ghost predicate UniqueNames(ds: seq<Descriptor>) {
    forall i, j :: 0 <= i < j < |ds| ==> ds[i].name != ds[j].name
  }

  ghost predicate WellFormed(r: Request) {
    && GoodString(r.name.text) && 0 < |r.codelets| <= MAX_CODELETS_IN_SET
    && (forall i :: 0 <= i < |r.codelets| ==> GoodDescriptor(r.codelets[i]))
    && UniqueNames(r.codelets)
  }

  /** validate_string_param */
  method CheckString(s: string) returns (ok: bool)
    ensures ok <==> GoodString(s)
  {
    var len := 0;
    while len < |s| && len <= NAME_LEN
      invariant 0 <= len <= |s|
    {
      len := len + 1;
    }
    ok := len != 0 && len < NAME_LEN;
  }

  method CheckStrings(ss: seq<string>) returns (ok: bool)
    ensures ok <==> forall i :: 0 <= i < |ss| ==> GoodString(ss[i])
  {
    for k := 0 to |ss|
      invariant forall i :: 0 <= i < k ==> GoodString(ss[i])
    {
      var good := CheckString(ss[k]);
      if !good {
        return false;
      }
    }
    return true;
  }

  method CheckLinkNames(d: Descriptor) returns (ok: bool)
    ensures ok <==> forall i :: 0 <= i < |d.links| ==>
      && GoodLink(d.links[i])
      && d.links[i].linkedCodelet != d.name
  {
    for k := 0 to |d.links|
      invariant forall i :: 0 <= i < k ==>
        && GoodLink(d.links[i])
        && d.links[i].linkedCodelet != d.name
    {
      var l := d.links[k];
      var names := [l.map_.text, l.linkedCodelet.text, l.linkedMap.text];
      var good := CheckStrings(names);
      assert names[0] == l.map_.text && names[1] == l.linkedCodelet.text && names[2] == l.linkedMap.text;
      if !good || l.linkedCodelet == d.name {
        return false;
      }
    }
    return true;
  }

  // The pairwise comparisons: no two links give one map, or lead to one map.
  method CheckLinkPairs(links: seq<Link>) returns (ok: bool)
    ensures ok <==> forall i, j :: 0 <= i < j < |links| ==>
      && links[i].map_ != links[j].map_
      && (links[i].linkedCodelet != links[j].linkedCodelet || links[i].linkedMap != links[j].linkedMap)
  {
    for m := 0 to |links|
      invariant forall i, j :: 0 <= i < m && i < j < |links| ==>
        && links[i].map_ != links[j].map_
        && (links[i].linkedCodelet != links[j].linkedCodelet || links[i].linkedMap != links[j].linkedMap)
    {
      for k := m + 1 to |links|
        invariant forall j :: m < j < k ==>
          && links[m].map_ != links[j].map_
          && (links[m].linkedCodelet != links[j].linkedCodelet || links[m].linkedMap != links[j].linkedMap)
      {
        if links[m].map_ == links[k].map_ ||
           (links[m].linkedCodelet == links[k].linkedCodelet && links[m].linkedMap == links[k].linkedMap) {
          return false;
        }
      }
    }
    return true;
  }

  method CheckDescriptor(d: Descriptor) returns (ok: bool)
    ensures ok <==> GoodDescriptor(d)
  {
    var three := [d.name.text, d.hook.text, d.path];
    var names := CheckStrings(three);
    assert three[0] == d.name.text && three[1] == d.hook.text && three[2] == d.path;
    var channels := CheckStrings(d.channels);
    var links := CheckLinkNames(d);
    var pairs := CheckLinkPairs(d.links);
    ok := names && channels && links && pairs;
  }

  method CheckUnique(ds: seq<Descriptor>) returns (ok: bool)
    ensures ok <==> UniqueNames(ds)
  {
    for m := 0 to |ds|
      invariant forall i, j :: 0 <= i < m && i < j < |ds| ==> ds[i].name != ds[j].name
    {
      for k := m + 1 to |ds|
        invariant forall j :: m < j < k ==> ds[m].name != ds[j].name
      {
        if ds[m].name == ds[k].name {
          return false;
        }
      }
    }
    return true;
  }

  // A text that fits its field.
  predicate FitsField(s: string) {
    1 <= |s| <= 255
  }

  /** What a good descriptor is: every text fits, the codelet does not link to itself, no map of it is linked twice and
      no map is linked to twice. */
  lemma GoodDescriptorIff(d: Descriptor)
    ensures GoodDescriptor(d) <==>
      && FitsField(d.name.text) && FitsField(d.hook.text) && FitsField(d.path)
      && (forall c :: c in d.channels ==> FitsField(c))
      && (forall l :: l in d.links ==>
            FitsField(l.map_.text) && FitsField(l.linkedCodelet.text) && FitsField(l.linkedMap.text)
              && l.linkedCodelet != d.name)
      && (forall i, j :: 0 <= i < j < |d.links| ==>
            && d.links[i].map_ != d.links[j].map_
            && (d.links[i].linkedCodelet, d.links[i].linkedMap) != (d.links[j].linkedCodelet, d.links[j].linkedMap))
  {
    assert forall i :: 0 <= i < |d.channels| ==> d.channels[i] in d.channels;
    assert forall i :: 0 <= i < |d.links| ==> d.links[i] in d.links;
  }

  /** And a well-formed request: its name fits, and it has 1 to 16 good descriptors with names of their own. */
  lemma WellFormedIff(r: Request)
    ensures WellFormed(r) <==>
      && FitsField(r.name.text) && 1 <= |r.codelets| <= 16 && (forall d :: d in r.codelets ==> GoodDescriptor(d))
      && (forall i, j :: 0 <= i < j < |r.codelets| ==> r.codelets[i].name != r.codelets[j].name)
  {
    assert forall i :: 0 <= i < |r.codelets| ==> r.codelets[i] in r.codelets;
  }

  /** validate_codeletset: passes exactly the well-formed requests */
  method Validate(r: Request) returns (ok: bool)
    ensures ok <==> WellFormed(r)
  {
    var name := CheckString(r.name.text);
    if !name || |r.codelets| == 0 || |r.codelets| > MAX_CODELETS_IN_SET {
      return false;
    }
    for k := 0 to |r.codelets|
      invariant forall i :: 0 <= i < k ==> GoodDescriptor(r.codelets[i])
    {
      var good := CheckDescriptor(r.codelets[k]);
      if !good {
        return false;
      }
    }
    ok := CheckUnique(r.codelets);
  }

  // ---------- the links of a request ----------

  function LinkPair(d: Descriptor, l: Link): (LinkedMaps.Alias, LinkedMaps.Alias) {
    (LinkedMaps.Alias(d.name, l.map_), LinkedMaps.Alias(l.linkedCodelet, l.linkedMap))
  }

  // The first n links of a codelet.
  function LinksOf(d: Descriptor, n: nat): LinkedMaps.Links
    requires n <= |d.links|
  {
    if n == 0 then [] else LinksOf(d, n - 1) + [LinkPair(d, d.links[n - 1])]
  }

  // The links of the first n codelets, in the order of the request.
  function AllLinks(ds: seq<Descriptor>, n: nat): LinkedMaps.Links
    requires n <= |ds|
  {
    if n == 0 then [] else AllLinks(ds, n - 1) + LinksOf(ds[n - 1], |ds[n - 1].links|)
  }

  // How many links the codelets before i have.
  function LinksBefore(ds: seq<Descriptor>, i: nat): nat
    requires i <= |ds|
  {
    if i == 0 then 0 else LinksBefore(ds, i - 1) + |ds[i - 1].links|
  }

  lemma {:induction false} LinkOfCodelet(d: Descriptor, n: nat, j: nat)
    requires j < n <= |d.links|
    ensures |LinksOf(d, n)| == n
    ensures LinksOf(d, n)[j] == (LinkedMaps.Alias(d.name, d.links[j].map_),
                                 LinkedMaps.Alias(d.links[j].linkedCodelet, d.links[j].linkedMap))
  {
    if n == 1 {
      assert LinksOf(d, 0) == [];
    } else if j + 1 < n {
      LinkOfCodelet(d, n - 1, j);
    } else {
      LinkOfCodelet(d, n - 1, 0);
    }
  }

  lemma {:induction false} LinkCount(ds: seq<Descriptor>, n: nat)
    requires n <= |ds|
    ensures |AllLinks(ds, n)| == LinksBefore(ds, n)
  {
    if n > 0 {
      LinkCount(ds, n - 1);
      if ds[n - 1].links != [] { LinkOfCodelet(ds[n - 1], |ds[n - 1].links|, 0); }
    }
  }

  /** Link j of codelet i, between the codelet's own map and the one it names, stands in the links of the request
      after all links of the codelets before and the j before it. */
  lemma {:induction false} LinkPosition(ds: seq<Descriptor>, n: nat, i: nat, j: nat)
    requires i < n <= |ds| && j < |ds[i].links|
    ensures |AllLinks(ds, n)| == LinksBefore(ds, n) && LinksBefore(ds, i) + j < LinksBefore(ds, n)
    ensures AllLinks(ds, n)[LinksBefore(ds, i) + j] ==
              (LinkedMaps.Alias(ds[i].name, ds[i].links[j].map_),
               LinkedMaps.Alias(ds[i].links[j].linkedCodelet, ds[i].links[j].linkedMap))
  {
    LinkCount(ds, n);
    LinkCount(ds, n - 1);
    if i == n - 1 {
      LinkOfCodelet(ds[i], |ds[i].links|, j);
    } else {
      LinkPosition(ds, n - 1, i, j);
    }
  }

  /** And there are no other links. */
  lemma {:induction false} LinkHasPosition(ds: seq<Descriptor>, n: nat, k: nat) returns (i: nat, j: nat)
    requires n <= |ds| && k < |AllLinks(ds, n)|
    ensures i < n && j < |ds[i].links| && k == LinksBefore(ds, i) + j
  {
    LinkCount(ds, n);
    if n > 0 {
      LinkCount(ds, n - 1);
      if k < |AllLinks(ds, n - 1)| {
        i, j := LinkHasPosition(ds, n - 1, k);
      } else {
        i, j := n - 1, k - LinksBefore(ds, n - 1);
      }
    }
  }

  // The alias is one end of link j of codelet i.
  predicate EndOf(ds: seq<Descriptor>, i: nat, j: nat, a: LinkedMaps.Alias) {
    && i < |ds| && j < |ds[i].links|
    && (|| a == LinkedMaps.Alias(ds[i].name, ds[i].links[j].map_)
        || a == LinkedMaps.Alias(ds[i].links[j].linkedCodelet, ds[i].links[j].linkedMap))
  }

  ghost predicate Linked(ds: seq<Descriptor>, a: LinkedMaps.Alias) {
    exists i: nat, j: nat :: EndOf(ds, i, j, a)
  }

  lemma UsedIsEnd(ds: seq<Descriptor>, a: LinkedMaps.Alias, k: nat)
    requires k < |AllLinks(ds, |ds|)| && (AllLinks(ds, |ds|)[k].0 == a || AllLinks(ds, |ds|)[k].1 == a)
    ensures Linked(ds, a)
  {
    var i, j := LinkHasPosition(ds, |ds|, k);
    LinkPosition(ds, |ds|, i, j);
    assert EndOf(ds, i, j, a);
  }

  lemma EndIsUsed(ds: seq<Descriptor>, a: LinkedMaps.Alias, i: nat, j: nat)
    requires EndOf(ds, i, j, a)
    ensures LinkedMaps.Used(AllLinks(ds, |ds|), a)
  {
    LinkPosition(ds, |ds|, i, j);
    var links, k := AllLinks(ds, |ds|), LinksBefore(ds, i) + j;
    assert links[k].0 == a || links[k].1 == a;
  }

  /** The table of linked maps holds both ends of every link of every codelet, and nothing else. */
  lemma LinkedIff(ds: seq<Descriptor>, a: LinkedMaps.Alias)
    ensures a in LinkedMaps.Populate(AllLinks(ds, |ds|)).table <==> Linked(ds, a)
  {
    var links := AllLinks(ds, |ds|);
    LinkedMaps.PairsOfLinks(links, a);
    if LinkedMaps.Used(links, a) {
      var k :| 0 <= k < |links| && (links[k].0 == a || links[k].1 == a);
      UsedIsEnd(ds, a, k);
    }
    if i: nat, j: nat :| EndOf(ds, i, j, a) { EndIsUsed(ds, a, i, j); }
  }

  lemma {:induction false} LinksDistinct(d: Descriptor, n: nat)
    requires n <= |d.links| && GoodLinks(d)
    ensures LinkedMaps.Distinct(LinksOf(d, n))
  {
    if n > 0 {
      LinksDistinct(d, n - 1);
    }
  }

  /** A valid request links no map with itself. */
  lemma {:induction false} AllLinksDistinct(ds: seq<Descriptor>, n: nat)
    requires n <= |ds| && forall i :: 0 <= i < |ds| ==> GoodDescriptor(ds[i])
    ensures LinkedMaps.Distinct(AllLinks(ds, n))
  {
    if n > 0 {
      AllLinksDistinct(ds, n - 1);
      LinksDistinct(ds[n - 1], |ds[n - 1].links|);
    }
  }

  function Plain(name: Name, hook: Name, fn: nat): Descriptor {
    Descriptor(name, hook, "p", [], [], 0, 0, true, [], true, fn, true, true)
  }

  /** A valid request whose only link is between two aliases with the same key. */
  lemma ValidRequestCollides(a: Name, ab: Name, bc: Name, c: Name, r: Request)
    requires a.text == "a" && ab.text == "a_b" && bc.text == "b_c" && c.text == "c"
    requires r == Request(a, [Plain(a, a, 1).(links := [Link(bc, ab, c)]), Plain(ab, a, 2)], true)
    ensures WellFormed(r) && AllLinks(r.codelets, 2) == [(LinkedMaps.Alias(a, bc), LinkedMaps.Alias(ab, c))]
    ensures LinkedMaps.Alias(a, bc) != LinkedMaps.Alias(ab, c)
    ensures LinkedMaps.Key(LinkedMaps.Alias(a, bc)) == LinkedMaps.Key(LinkedMaps.Alias(ab, c))
  {
    var d := r.codelets[0];
    assert LinksOf(d, 1) == LinksOf(d, 0) + [LinkPair(d, d.links[0])];
    assert AllLinks(r.codelets, 1) == AllLinks(r.codelets, 0) + LinksOf(d, 1);
    assert AllLinks(r.codelets, 2) == AllLinks(r.codelets, 1) + LinksOf(r.codelets[1], 0);
  }

  /** jbpf_populate_linked_map_entries: the links of the request, codelet by codelet */
  method PopulateTable(ds: seq<Descriptor>) returns (s: LinkedMaps.State)
    ensures s == LinkedMaps.Populate(AllLinks(ds, |ds|))
    ensures forall a :: a in s.table <==> Linked(ds, a)
  {
    s := LinkedMaps.Empty();
    for i := 0 to |ds|
      invariant s == LinkedMaps.Populate(AllLinks(ds, i))
    {
      var d := ds[i];
      assert AllLinks(ds, i) + LinksOf(d, 0) == AllLinks(ds, i);
      for j := 0 to |d.links|
        invariant s == LinkedMaps.Populate(AllLinks(ds, i) + LinksOf(d, j))
      {
        var l := LinkPair(d, d.links[j]);
        ghost var links := AllLinks(ds, i) + LinksOf(d, j);
        assert AllLinks(ds, i) + LinksOf(d, j + 1) == links + [l] && (links + [l])[..|links|] == links;
        s := LinkedMaps.DoLink(s, l.0, l.1);
      }
    }
    forall a ensures a in s.table <==> Linked(ds, a) { LinkedIff(ds, a); }
  }
}
