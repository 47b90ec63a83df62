/** Facts about finite sets and sequences that several components share. */
module Collections {

  datatype Option<T> = None | Some(value: T)

  function SetOf<T(==)>(q: seq<T>): set<T> {
    set x | x in q
  }

  ghost predicate NoDup<T>(q: seq<T>) {
    forall i, j :: 0 <= i < j < |q| ==> q[i] != q[j]
  }

  function Below(n: nat): (r: set<nat>)
    ensures forall x: nat :: x in r <==> x < n
    ensures |r| == n
  {
    if n == 0 then {} else Below(n - 1) + {n - 1}
  }

  lemma {:induction false} SetOfSize<T>(q: seq<T>)
    requires NoDup(q)
    ensures |SetOf(q)| == |q|
  {
    if q != [] {
      SetOfSize(q[1..]);
      assert SetOf(q) == SetOf(q[1..]) + {q[0]};
      assert q[0] !in q[1..];
    }
  }

  lemma SetOfAppend<T>(q: seq<T>, x: T)
    ensures SetOf(q + [x]) == SetOf(q) + {x}
    ensures NoDup(q) && x !in q ==> NoDup(q + [x])
  {}

  lemma SetOfTail<T>(q: seq<T>)
    requires q != []
    ensures SetOf(q) == SetOf(q[1..]) + {q[0]}
    ensures NoDup(q) ==> NoDup(q[1..]) && q[0] !in q[1..]
  {}

  lemma SubsetSize<T>(a: set<T>, b: set<T>)
    requires a <= b
    ensures |a| <= |b|
  {
    assert b == a + (b - a);
  }

  lemma OnlyElement<T>(q: set<T>, b: T)
    requires b in q && |q| <= 1
    ensures q == {b}
  {
    assert |q - {b}| == |q| - 1;
  }

  lemma {:induction false} OccursOnce<T>(q: seq<T>, b: T)
    requires NoDup(q)
    ensures multiset(q)[b] == if b in q then 1 else 0
  {
    if q != [] {
      OccursOnce(q[1..], b);
      assert q == [q[0]] + q[1..];
    }
  }

  // all is split into the elements of q and those of left.
  ghost predicate Partition<T>(all: set<T>, q: seq<T>, left: set<T>) {
    left <= all && SetOf(q) == all - left
  }

  lemma PartitionMove<T>(all: set<T>, q: seq<T>, left: set<T>, x: T)
    requires Partition(all, q, left) && x in left
    ensures x !in q && Partition(all, q + [x], left - {x})
  {
    assert x !in SetOf(q);
    SetOfAppend(q, x);
  }

  // Going over all with left to go, the elements of some that are done are those of over.
  ghost predicate Over<T>(all: set<T>, some: set<T>, left: set<T>, over: set<T>) {
    left <= all && some <= all && over == some - left
  }

  lemma OverMove<T>(all: set<T>, some: set<T>, left: set<T>, over: set<T>, x: T)
    requires Over(all, some, left, over) && x in left
    ensures x in all && x !in over && over <= some
    ensures Over(all, some, left - {x}, if x in some then over + {x} else over)
  {}
}
