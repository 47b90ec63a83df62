/**
 Which maps the links of a request put together.

 The code takes the links one after another and never merges two groups. Its groups are the components of the graph of
 the links exactly when no link comes too late: when it finds both its maps in groups, they are already connected.
 */
module Linking {
  import opened Requests
  import LM = LinkedMaps

  ghost predicate Edge(links: LM.Links, a: LM.Alias, b: LM.Alias) {
    exists i :: 0 <= i < |links| && (links[i] == (a, b) || links[i] == (b, a))
  }

  ghost predicate Path(links: LM.Links, path: seq<LM.Alias>) {
    path != [] && forall k :: 0 <= k < |path| - 1 ==> Edge(links, path[k], path[k + 1])
  }

  // A chain of links leads from one map to the other.
  ghost predicate Connected(links: LM.Links, a: LM.Alias, b: LM.Alias) {
    exists path :: Path(links, path) && path[0] == a && path[|path| - 1] == b
  }

  // A link whose maps both have links already joins maps that are already connected.
  ghost predicate InTime(links: LM.Links, i: nat)
    requires i < |links|
  {
    LM.Used(links[..i], links[i].0) && LM.Used(links[..i], links[i].1) ==>
      Connected(links[..i], links[i].0, links[i].1)
  }

  ghost predicate AllInTime(links: LM.Links) {
    forall i :: 0 <= i < |links| ==> InTime(links, i)
  }

  lemma ConnectedSelf(links: LM.Links, a: LM.Alias)
    ensures Connected(links, a, a)
  {
    assert Path(links, [a]) && [a][0] == a;
  }

  lemma ConnectedEdge(links: LM.Links, a: LM.Alias, b: LM.Alias)
    requires Edge(links, a, b)
    ensures Connected(links, a, b)
  {
    var path := [a, b];
    assert Path(links, path) && path[0] == a && path[|path| - 1] == b;
  }

  lemma ConnectedTrans(links: LM.Links, a: LM.Alias, b: LM.Alias, c: LM.Alias)
    requires Connected(links, a, b) && Connected(links, b, c)
    ensures Connected(links, a, c)
  {
    var p :| Path(links, p) && p[0] == a && p[|p| - 1] == b;
    var q :| Path(links, q) && q[0] == b && q[|q| - 1] == c;
    var path := p + q[1..];
    forall k | 0 <= k < |path| - 1 ensures Edge(links, path[k], path[k + 1]) {
      if k < |p| - 1 {
        assert path[k] == p[k] && path[k + 1] == p[k + 1];
      } else {
        var m := k - |p| + 1;
        assert path[k] == q[m] && path[k + 1] == q[m + 1];
      }
    }
    assert Path(links, path) && path[0] == a && path[|path| - 1] == c;
  }

  lemma ConnectedMore(links: LM.Links, n: nat, a: LM.Alias, b: LM.Alias)
    requires n <= |links| && Connected(links[..n], a, b)
    ensures Connected(links, a, b)
  {
    var path :| Path(links[..n], path) && path[0] == a && path[|path| - 1] == b;
    forall k | 0 <= k < |path| - 1 ensures Edge(links, path[k], path[k + 1]) {
      assert Edge(links[..n], path[k], path[k + 1]);
      var i :| 0 <= i < n && (links[..n][i] == (path[k], path[k + 1]) || links[..n][i] == (path[k + 1], path[k]));
      assert links[..n][i] == links[i];
    }
    assert Path(links, path);
  }

  lemma ConnectedUsed(links: LM.Links, a: LM.Alias, b: LM.Alias)
    requires Connected(links, a, b) && a != b
    ensures LM.Used(links, a) && LM.Used(links, b)
  {
    var path :| Path(links, path) && path[0] == a && path[|path| - 1] == b;
    assert Edge(links, path[0], path[0 + 1]);
    var n := |path| - 2;
    assert Edge(links, path[n], path[n + 1]);
  }

  // How the last link changes the table.
  lemma LastLink(links: LM.Links, a: LM.Alias)
    requires links != [] && LM.Distinct(links) && a in LM.Populate(links).table
    ensures var n := |links| - 1;
            var s, s', l := LM.Populate(links[..n]), LM.Populate(links), links[n];
            && (a in s.table ==> s'.table[a] == s.table[a])
            && (a !in s.table ==> a == l.0 || a == l.1)
            && (l.0 !in s.table && l.1 !in s.table ==> (s'.table[a] == s.next <==> a == l.0 || a == l.1))
            && (a == l.0 && a !in s.table && l.1 in s.table ==> s'.table[a] == s.table[l.1])
            && (a == l.1 && a !in s.table && l.0 in s.table ==> s'.table[a] == s.table[l.0])
  {
    var n := |links| - 1;
    LM.DistinctLess(links);
    LM.PopulateReachable(links[..n]);
    LM.ReachableInv(LM.Populate(links[..n]));
  }

  /** Maps the code puts in one group are connected by links. */
  lemma {:induction false} GroupIsConnected(links: LM.Links, a: LM.Alias, b: LM.Alias)
    requires LM.Distinct(links) && LM.Together(LM.Populate(links), (a, b))
    ensures Connected(links, a, b)
    decreases |links|
  {
    if a == b {
      ConnectedSelf(links, a);
    } else if links != [] {
      var n := |links| - 1;
      var s, l := LM.Populate(links[..n]), links[n];
      LM.DistinctLess(links);
      LastLink(links, a);
      LastLink(links, b);
      if a in s.table && b in s.table {
        GroupIsConnected(links[..n], a, b);
        ConnectedMore(links, n, a, b);
      } else if (a, b) == l || (b, a) == l {
        ConnectedEdge(links, a, b);
      } else if a !in s.table {
        var o := OtherEnd(links, a, b);
        GroupIsConnected(links[..n], o, b);
        ConnectedMore(links, n, o, b);
        ConnectedEdge(links, a, o);
        ConnectedTrans(links, a, o, b);
      } else {
        var o := OtherEnd(links, b, a);
        GroupIsConnected(links[..n], a, o);
        ConnectedMore(links, n, a, o);
        ConnectedEdge(links, o, b);
        ConnectedTrans(links, a, o, b);
      }
    }
  }

  // The last link brings a into the group of b: its other end is there.
  lemma OtherEnd(links: LM.Links, a: LM.Alias, b: LM.Alias) returns (o: LM.Alias)
    requires LM.Distinct(links) && links != [] && LM.Together(LM.Populate(links), (a, b)) && a != b
    requires a !in LM.Populate(links[..|links| - 1]).table
    requires (a, b) != links[|links| - 1] && (b, a) != links[|links| - 1]
    ensures var s := LM.Populate(links[..|links| - 1]); LM.Together(s, (o, b)) && LM.Together(s, (b, o))
    ensures Edge(links, a, o) && Edge(links, o, a)
  {
    var l := links[|links| - 1];
    LastLink(links, a);
    LastLink(links, b);
    o := if a == l.0 then l.1 else l.0;
    LastLink(links, l.0);
    LastLink(links, l.1);
  }

  lemma {:induction false} PathStays(links: LM.Links, path: seq<LM.Alias>, s: LM.State)
    requires Path(links, path) && (forall i :: 0 <= i < |links| ==> LM.Together(s, links[i])) && path[0] in s.table
    ensures LM.Together(s, (path[0], path[|path| - 1]))
  {
    if |path| > 1 {
      var n := |path| - 1;
      var before := path[..n];
      forall k | 0 <= k < |before| - 1 ensures Edge(links, before[k], before[k + 1]) {
        assert Edge(links, path[k], path[k + 1]);
      }
      PathStays(links, before, s);
      assert Edge(links, path[n - 1], path[n - 1 + 1]);
    }
  }

  lemma {:induction false} AllTogether(links: LM.Links)
    requires LM.Distinct(links) && AllInTime(links)
    ensures forall i :: 0 <= i < |links| ==> LM.Together(LM.Populate(links), links[i])
  {
    if links != [] {
      var n := |links| - 1;
      var before, l := links[..n], links[n];
      LM.DistinctLess(links);
      forall i | 0 <= i < n ensures InTime(before, i) { assert before[..i] == links[..i] && InTime(links, i); }
      AllTogether(before);
      assert InTime(links, n);
      LM.PairsOfLinks(before, l.0);
      LM.PairsOfLinks(before, l.1);
      if l.0 in LM.Populate(before).table && l.1 in LM.Populate(before).table {
        var path :| Path(before, path) && path[0] == l.0 && path[|path| - 1] == l.1;
        PathStays(before, path, LM.Populate(before));
      }
      LM.LinksJoinUnlessApart(links, n);
      forall i | 0 <= i < n ensures LM.Together(LM.Populate(links), links[i]) {
        assert before[i] == links[i] && LM.Together(LM.Populate(before), before[i]);
        LM.GroupsStay(links, n, links[i].0);
        LM.GroupsStay(links, n, links[i].1);
      }
    }
  }

  /** Every link puts its two maps in one group exactly when no link comes too late. */
  lemma AllJoinIff(links: LM.Links)
    requires LM.Distinct(links)
    ensures (forall i :: 0 <= i < |links| ==> LM.Together(LM.Populate(links), links[i])) <==> AllInTime(links)
  {
    if AllInTime(links) {
      AllTogether(links);
    } else {
      var i :| 0 <= i < |links| && !InTime(links, i);
      LM.PairsOfLinks(links[..i], links[i].0);
      LM.PairsOfLinks(links[..i], links[i].1);
      if LM.Together(LM.Populate(links[..i]), links[i]) {
        GroupIsConnected(links[..i], links[i].0, links[i].1);
      }
      LM.LinksJoinUnlessApart(links, i);
    }
  }

  /** Then the groups are the components: two linked maps are in one group exactly when a chain of links connects
      them. */
  lemma GroupsAreComponents(links: LM.Links, a: LM.Alias, b: LM.Alias)
    requires LM.Distinct(links) && AllInTime(links) && LM.Used(links, a) && LM.Used(links, b)
    ensures LM.Together(LM.Populate(links), (a, b)) <==> Connected(links, a, b)
  {
    LM.PairsOfLinks(links, a);
    LM.PairsOfLinks(links, b);
    AllTogether(links);
    if LM.Together(LM.Populate(links), (a, b)) {
      GroupIsConnected(links, a, b);
    } else if Connected(links, a, b) {
      var path :| Path(links, path) && path[0] == a && path[|path| - 1] == b;
      PathStays(links, path, LM.Populate(links));
    }
  }
}
