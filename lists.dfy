/** Python's in-place `list.remove(x)`, as a function on the list's contents. */
module Lists {

  /** The list after `xs.remove(x)`: the FIRST occurrence of `x` is dropped
      (Python raises ValueError when there is none; callers check `x in xs`). */
  function RemoveFirst<T(==)>(xs: seq<T>, x: T): seq<T>
  {
    if xs == [] then []
    else if xs[0] == x then xs[1..]
    else [xs[0]] + RemoveFirst(xs[1..], x)
  }

  /** Removing an element takes exactly one copy of it out of the list's multiset
      and shortens the list by one. */
  lemma {:induction false} RemoveFirstCount<T>(xs: seq<T>, x: T)
    requires x in xs
    ensures multiset(RemoveFirst(xs, x)) == multiset(xs) - multiset{x}
    ensures |RemoveFirst(xs, x)| == |xs| - 1
  {
    assert xs == [xs[0]] + xs[1..];
    if xs[0] != x {
      RemoveFirstCount(xs[1..], x);
    }
  }

  /** The list's elements as a set. */
  function Elems<T>(xs: seq<T>): set<T>
  {
    set x | x in xs
  }

  /** A list in which no element appears twice. */
  predicate NoDup<T(==)>(xs: seq<T>)
  {
    forall i, j :: 0 <= i < j < |xs| ==> xs[i] != xs[j]
  }

  /** A list holds each member of `s` once and nothing else exactly when its
      multiset is that of `s`. */
  lemma {:induction false} MultisetOfSet<T>(xs: seq<T>, s: set<T>)
    requires multiset(xs) == multiset(s)
    ensures NoDup(xs) && Elems(xs) == s
  {
    forall i, j | 0 <= i < j < |xs|
      ensures xs[i] != xs[j]
    {
      if xs[i] == xs[j] {
        TwoCopies(xs, i, j);
      }
    }
    forall x ensures x in Elems(xs) <==> x in s {
      assert x in xs <==> x in multiset(xs);
      assert x in s <==> x in multiset(s);
    }
  }

  lemma {:induction false} TwoCopies<T>(xs: seq<T>, i: nat, j: nat)
    requires i < j < |xs| && xs[i] == xs[j]
    ensures multiset(xs)[xs[i]] >= 2
  {
    assert xs == xs[..i] + [xs[i]] + xs[i + 1..j] + [xs[j]] + xs[j + 1..];
  }

  /** `xs` and `ys` split the set `s` between them: together they hold each
      member of `s` exactly once. */
  predicate Partitions<T>(xs: seq<T>, ys: seq<T>, s: set<T>)
  {
    multiset(xs) + multiset(ys) == multiset(s)
  }

  /** What a partition means element-wise: neither list repeats an id, no id is
      in both, and together they cover `s` and nothing else. */
  lemma PartitionMeaning<T>(xs: seq<T>, ys: seq<T>, s: set<T>)
    requires Partitions(xs, ys, s)
    ensures NoDup(xs) && NoDup(ys)
    ensures Elems(xs) !! Elems(ys)
    ensures Elems(xs) + Elems(ys) == s
  {
    var both := xs + ys;
    assert multiset(both) == multiset(xs) + multiset(ys);
    MultisetOfSet(both, s);
    forall i, j | 0 <= i < j < |xs| ensures xs[i] != xs[j] {
      assert both[i] == xs[i] && both[j] == xs[j];
    }
    forall i, j | 0 <= i < j < |ys| ensures ys[i] != ys[j] {
      assert both[|xs| + i] == ys[i] && both[|xs| + j] == ys[j];
    }
    forall i, j | 0 <= i < |xs| && 0 <= j < |ys| ensures xs[i] != ys[j] {
      assert both[i] == xs[i] && both[|xs| + j] == ys[j];
    }
    assert Elems(both) == Elems(xs) + Elems(ys);
  }

  /** A list with no repeats holds each of its elements once. */
  lemma {:induction false} NoDupMultiset<T>(xs: seq<T>)
    requires NoDup(xs)
    ensures multiset(xs) == multiset(Elems(xs))
  {
    if xs != [] {
      var rest := xs[1..];
      assert NoDup(rest);
      NoDupMultiset(rest);
      assert xs == [xs[0]] + rest;
      assert xs[0] !in rest;
      assert Elems(xs) == {xs[0]} + Elems(rest);
    }
  }

  /** Appending an element not yet in a list without repeats keeps it without
      repeats and adds that element to its set. */
  lemma AppendFresh<T>(xs: seq<T>, x: T)
    requires NoDup(xs) && x !in xs
    ensures NoDup(xs + [x]) && Elems(xs + [x]) == Elems(xs) + {x}
  {
    var ys := xs + [x];
    forall i, j | 0 <= i < j < |ys| ensures ys[i] != ys[j] {
      if j == |xs| {
        assert ys[i] == xs[i];
      } else {
        assert ys[i] == xs[i] && ys[j] == xs[j];
      }
    }
  }

  /** Moving one member from the first list of a partition to the end of the
      second keeps it a partition. */
  lemma MoveKeepsPartition<T>(xs: seq<T>, ys: seq<T>, s: set<T>, x: T)
    requires Partitions(xs, ys, s) && x in xs
    ensures Partitions(RemoveFirst(xs, x), ys + [x], s)
  {
    RemoveFirstCount(xs, x);
  }
}
