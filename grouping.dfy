/**
 * Grouping a sequence by a key in one pass, as a Python `defaultdict(list)` is filled by
 * appending each element under its key: the dict's keys come out in order of first
 * occurrence, and each list holds the elements with that key in input order.
 */
module Grouping {
  import opened Sorting

  /** The keys of the dict in insertion order: each key where it first occurs. */
  function KeysInOrder<T, K(==,!new)>(xs: seq<T>, key: T -> K): seq<K> {
    Distinct(MapSeq(xs, key))
  }

  /** The list under `k`: the elements whose key is `k`, in input order. */
  function Members<T, K(==)>(xs: seq<T>, key: T -> K, k: K): seq<T> {
    if xs == [] then []
    else Members(xs[..|xs| - 1], key, k) + (if key(xs[|xs| - 1]) == k then [xs[|xs| - 1]] else [])
  }

  /** A group holds exactly the elements with its key. */
  lemma {:induction false} MembersMeaning<T, K>(xs: seq<T>, key: T -> K, k: K)
    ensures forall x :: x in Members(xs, key, k) <==> x in xs && key(x) == k
  {
    if xs != [] {
      var init, last := xs[..|xs| - 1], xs[|xs| - 1];
      MembersMeaning(init, key, k);
      assert forall x :: x in xs <==> x in init || x == last by {
        assert xs == init + [last];
      }
    }
  }

  /** The keys are exactly those with a non-empty group. */
  lemma KeysMeaning<T, K(!new)>(xs: seq<T>, key: T -> K, k: K)
    ensures k in KeysInOrder(xs, key) <==> Members(xs, key, k) != []
  {
    MembersMeaning(xs, key, k);
    if k in KeysInOrder(xs, key) {
      var i :| 0 <= i < |xs| && MapSeq(xs, key)[i] == k;
      assert xs[i] in Members(xs, key, k);
    }
  }

  /**
   * Every element lands in the group under its own key, which is one of the keys, and no
   * key is listed twice; with `MembersMeaning`, it lands in no other group.
   */
  lemma GroupingPartitions<T, K(!new)>(xs: seq<T>, key: T -> K)
    ensures forall x :: x in xs ==> key(x) in KeysInOrder(xs, key) && x in Members(xs, key, key(x))
    ensures NoDuplicates(KeysInOrder(xs, key))
  {
    forall x | x in xs ensures key(x) in KeysInOrder(xs, key) && x in Members(xs, key, key(x)) {
      MembersMeaning(xs, key, key(x));
      KeysMeaning(xs, key, key(x));
    }
  }

  /** Taking one more element adds its key at the end if it is new. */
  lemma KeysStep<T, K(!new)>(xs: seq<T>, key: T -> K, i: nat)
    requires i < |xs|
    ensures KeysInOrder(xs[..i + 1], key) ==
      if key(xs[i]) in KeysInOrder(xs[..i], key) then KeysInOrder(xs[..i], key)
      else KeysInOrder(xs[..i], key) + [key(xs[i])]
  {
    var all := MapSeq(xs[..i + 1], key);
    assert all[..i] == MapSeq(xs[..i], key);
  }

  /** Taking one more element adds it to the end of its own group and leaves the other groups alone. */
  lemma MembersStep<T, K>(xs: seq<T>, key: T -> K, i: nat)
    requires i < |xs|
    ensures forall k :: Members(xs[..i + 1], key, k) == Members(xs[..i], key, k) + (if key(xs[i]) == k then [xs[i]] else [])
  {
    assert xs[..i + 1][..i] == xs[..i];
  }

  /** `keys` and `groups` are the grouping of `xs`: its keys in order of first occurrence, each with its group. */
  ghost predicate GroupedAs<T, K(!new)>(xs: seq<T>, key: T -> K, keys: seq<K>, groups: map<K, seq<T>>) {
    && keys == KeysInOrder(xs, key)
    && (forall k :: k in groups <==> k in keys)
    && (forall k :: k in groups ==> groups[k] == Members(xs, key, k))
  }

  /** A pass of the grouping loop whose key is already present appends to that group. */
  lemma GroupedJoin<T, K(!new)>(xs: seq<T>, key: T -> K, i: nat, keys: seq<K>, groups: map<K, seq<T>>)
    requires i < |xs| && GroupedAs(xs[..i], key, keys, groups) && key(xs[i]) in groups
    ensures GroupedAs(xs[..i + 1], key, keys, groups[key(xs[i]) := groups[key(xs[i])] + [xs[i]]])
  {
    KeysStep(xs, key, i);
    MembersStep(xs, key, i);
  }

  /** A pass of the grouping loop with a new key starts a group for it and lists the key last. */
  lemma GroupedNew<T, K(!new)>(xs: seq<T>, key: T -> K, i: nat, keys: seq<K>, groups: map<K, seq<T>>)
    requires i < |xs| && GroupedAs(xs[..i], key, keys, groups) && key(xs[i]) !in groups
    ensures GroupedAs(xs[..i + 1], key, keys + [key(xs[i])], groups[key(xs[i]) := [xs[i]]])
  {
    var k := key(xs[i]);
    KeysStep(xs, key, i);
    KeysMeaning(xs[..i], key, k);
    assert Members(xs[..i + 1], key, k) == [xs[i]] by {
      MembersStep(xs, key, i);
    }
    forall k' | k' != k ensures Members(xs[..i + 1], key, k') == Members(xs[..i], key, k') {
      MembersStep(xs, key, i);
    }
  }

  /** How often an element occurs in a group: as often as in the input if it has that key, otherwise not at all. */
  lemma {:induction false} MembersCount<T, K>(xs: seq<T>, key: T -> K, k: K, x: T)
    ensures multiset(Members(xs, key, k))[x] == if key(x) == k then multiset(xs)[x] else 0
  {
    if xs != [] {
      var init, last := xs[..|xs| - 1], xs[|xs| - 1];
      MembersCount(init, key, k, x);
      assert xs == init + [last];
    }
  }

  /** Two orderings of one input have the same groups, up to order. */
  lemma MembersPermuted<T(!new), K>(xs: seq<T>, ys: seq<T>, key: T -> K, k: K)
    requires multiset(xs) == multiset(ys)
    ensures multiset(Members(xs, key, k)) == multiset(Members(ys, key, k))
  {
    forall x ensures multiset(Members(xs, key, k))[x] == multiset(Members(ys, key, k))[x] {
      MembersCount(xs, key, k, x);
      MembersCount(ys, key, k, x);
    }
  }

  /** Two orderings of one input have the same keys, though perhaps in another order. */
  lemma KeysPermuted<T(!new), K(!new)>(xs: seq<T>, ys: seq<T>, key: T -> K, k: K)
    requires multiset(xs) == multiset(ys)
    ensures k in KeysInOrder(xs, key) <==> k in KeysInOrder(ys, key)
  {
    MembersPermuted(xs, ys, key, k);
    KeysMeaning(xs, key, k);
    KeysMeaning(ys, key, k);
    assert Members(xs, key, k) == [] <==> |multiset(Members(xs, key, k))| == 0;
    assert Members(ys, key, k) == [] <==> |multiset(Members(ys, key, k))| == 0;
  }

  /** Two elements with different keys form two groups of one, in input order. */
  lemma TwoGroups<T, K(!new)>(x: T, y: T, key: T -> K)
    requires key(x) != key(y)
    ensures KeysInOrder([x, y], key) == [key(x), key(y)]
    ensures Members([x, y], key, key(x)) == [x] && Members([x, y], key, key(y)) == [y]
  {
    assert [x, y][..1] == [x];
    assert [x][..0] == [];
    assert Members([x], key, key(x)) == [x] && Members([x], key, key(y)) == [];
    var keys := MapSeq([x, y], key);
    assert keys == [key(x), key(y)];
    assert keys[..1] == [key(x)];
    assert [key(x)][..0] == [];
    assert Distinct([key(x)]) == [key(x)];
  }
}
