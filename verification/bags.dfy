/** Multisets of elements held in a sequence of lists: the free lists of all
    CPUs, or the buffer indices of all hash buckets. */
module Bags {

  /** Every element of every list, with multiplicity. */
  function Union<T>(ss: seq<seq<T>>): multiset<T>
  {
    if |ss| == 0 then multiset{} else Union(ss[..|ss| - 1]) + multiset(ss[|ss| - 1])
  }

  /** No element occurs twice. */
  predicate NoDup<T>(m: multiset<T>)
  {
    forall x | x in m :: m[x] <= 1
  }

  /** The total number of list entries. */
  function TotalLength<T>(ss: seq<seq<T>>): nat
  {
    if |ss| == 0 then 0 else TotalLength(ss[..|ss| - 1]) + |ss[|ss| - 1]|
  }

  lemma {:induction false} UnionSize<T>(ss: seq<seq<T>>)
    ensures |Union(ss)| == TotalLength(ss)
  {
    if |ss| > 0 {
      UnionSize(ss[..|ss| - 1]);
    }
  }

  /** Replacing one list changes the union by exactly the difference of the two lists. */
  lemma {:induction false} UnionUpdate<T>(ss: seq<seq<T>>, i: nat, s: seq<T>)
    requires i < |ss|
    ensures Union(ss[i := s]) + multiset(ss[i]) == Union(ss) + multiset(s)
  {
    var n := |ss| - 1;
    var ts := ss[i := s];
    assert Union(ts) == Union(ts[..n]) + multiset(ts[n]);
    if i == n {
      assert ts[..n] == ss[..n];
    } else {
      assert ts[..n] == ss[..n][i := s];
      assert ts[n] == ss[n] && ss[..n][i] == ss[i];
      UnionUpdate(ss[..n], i, s);
      calc {
        Union(ts) + multiset(ss[i]);
        Union(ss[..n][i := s]) + multiset(ss[n]) + multiset(ss[i]);
        Union(ss[..n]) + multiset(s) + multiset(ss[n]);
        Union(ss) + multiset(s);
      }
    }
  }

  /** Two distinct lists together form part of the union. */
  lemma {:induction false} PairInUnion<T>(ss: seq<seq<T>>, i: nat, j: nat)
    requires i < |ss| && j < |ss| && i != j
    ensures multiset(ss[i]) + multiset(ss[j]) <= Union(ss)
  {
    var n := |ss| - 1;
    if i == n {
      OneInUnion(ss[..n], j);
    } else if j == n {
      OneInUnion(ss[..n], i);
    } else {
      PairInUnion(ss[..n], i, j);
    }
  }

  lemma {:induction false} OneInUnion<T>(ss: seq<seq<T>>, i: nat)
    requires i < |ss|
    ensures multiset(ss[i]) <= Union(ss)
  {
    var n := |ss| - 1;
    if i < n {
      OneInUnion(ss[..n], i);
    }
  }

  /** With no duplicates in the union, an element lies in at most one list,
      and at most once within it. */
  lemma NoDupSeparates<T>(ss: seq<seq<T>>, i: nat, j: nat, x: T)
    requires NoDup(Union(ss))
    requires i < |ss| && j < |ss| && i != j
    requires x in ss[i]
    ensures x !in ss[j]
  {
    PairInUnion(ss, i, j);
    assert (multiset(ss[i]) + multiset(ss[j]))[x] <= Union(ss)[x];
  }

  /** Every list is a part of the union. */
  lemma InUnion<T>(ss: seq<seq<T>>, i: nat, x: T)
    requires i < |ss| && x in ss[i]
    ensures x in Union(ss)
  {
    OneInUnion(ss, i);
  }

  /** A common part cancels from both sides of an equation. */
  lemma Cancel<T>(a: multiset<T>, b: multiset<T>, c: multiset<T>)
    requires a + c == b + c
    ensures a == b
  {
    forall x
      ensures a[x] == b[x]
    {
      assert (a + c)[x] == (b + c)[x];
    }
  }

  /** Lists that are all empty have an empty union. */
  lemma {:induction false} UnionOfEmpties<T>(ss: seq<seq<T>>)
    requires forall i :: 0 <= i < |ss| ==> ss[i] == []
    ensures Union(ss) == multiset{}
  {
    if |ss| > 0 {
      UnionOfEmpties(ss[..|ss| - 1]);
    }
  }

  /** Pushing x on the front of one list adds x. */
  lemma UnionPush<T>(ss: seq<seq<T>>, i: nat, x: T)
    requires i < |ss|
    ensures Union(ss[i := [x] + ss[i]]) == Union(ss) + multiset{x}
  {
    UnionUpdate(ss, i, [x] + ss[i]);
    assert multiset([x] + ss[i]) == multiset{x} + multiset(ss[i]);
    Cancel(Union(ss[i := [x] + ss[i]]), Union(ss) + multiset{x}, multiset(ss[i]));
  }

  /** Appending x to one list adds x. */
  lemma UnionAppend<T>(ss: seq<seq<T>>, i: nat, x: T)
    requires i < |ss|
    ensures Union(ss[i := ss[i] + [x]]) == Union(ss) + multiset{x}
  {
    UnionUpdate(ss, i, ss[i] + [x]);
    assert multiset(ss[i] + [x]) == multiset{x} + multiset(ss[i]);
    Cancel(Union(ss[i := ss[i] + [x]]), Union(ss) + multiset{x}, multiset(ss[i]));
  }

  /** Dropping the head of one list removes that head. */
  lemma UnionDropHead<T>(ss: seq<seq<T>>, i: nat)
    requires i < |ss| && |ss[i]| > 0
    ensures Union(ss[i := ss[i][1..]]) + multiset{ss[i][0]} == Union(ss)
  {
    var s := ss[i];
    UnionUpdate(ss, i, s[1..]);
    assert s == [s[0]] + s[1..];
    assert multiset(s) == multiset{s[0]} + multiset(s[1..]);
    Cancel(Union(ss[i := s[1..]]) + multiset{s[0]}, Union(ss), multiset(s[1..]));
  }

  /** s without any occurrence of x, in order. */
  function Remove<T(==)>(s: seq<T>, x: T): (r: seq<T>)
    ensures multiset(r) == multiset(s)[x := 0]
    ensures x !in r
    ensures x !in s ==> r == s
  {
    if |s| == 0 then []
    else
      assert s == [s[0]] + s[1..];
      if s[0] == x then Remove(s[1..], x) else [s[0]] + Remove(s[1..], x)
  }

  /** Every list with x removed. */
  function RemoveAll<T(==)>(ss: seq<seq<T>>, x: T): (rs: seq<seq<T>>)
    ensures |rs| == |ss| && forall i :: 0 <= i < |ss| ==> rs[i] == Remove(ss[i], x)
  {
    if |ss| == 0 then [] else RemoveAll(ss[..|ss| - 1], x) + [Remove(ss[|ss| - 1], x)]
  }

  /** Removing x from every list removes every occurrence of x from the union. */
  lemma {:induction false} UnionRemoveAll<T>(ss: seq<seq<T>>, x: T)
    ensures Union(RemoveAll(ss, x)) == Union(ss)[x := 0]
  {
    if |ss| > 0 {
      var n := |ss| - 1;
      UnionRemoveAll(ss[..n], x);
      assert RemoveAll(ss, x)[..n] == RemoveAll(ss[..n], x);
    }
  }

  /** Cutting the element at position k out of one list removes that element. */
  lemma UnionDropAt<T>(ss: seq<seq<T>>, i: nat, k: nat)
    requires i < |ss| && k < |ss[i]|
    ensures Union(ss[i := ss[i][..k] + ss[i][k + 1..]]) + multiset{ss[i][k]} == Union(ss)
  {
    var s := ss[i];
    var t := s[..k] + s[k + 1..];
    UnionUpdate(ss, i, t);
    assert s == s[..k] + [s[k]] + s[k + 1..];
    assert multiset(s) == multiset(t) + multiset{s[k]};
    Cancel(Union(ss[i := t]) + multiset{s[k]}, Union(ss), multiset(t));
  }

  /** Every element of the union lies in one of the lists. */
  lemma {:induction false} UnionMember<T>(ss: seq<seq<T>>, x: T) returns (i: nat)
    requires x in Union(ss)
    ensures i < |ss| && x in ss[i]
  {
    var n := |ss| - 1;
    if x in multiset(ss[n]) {
      i := n;
    } else {
      i := UnionMember(ss[..n], x);
    }
  }
}
