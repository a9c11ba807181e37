/**
 * Orders and sorting as Python applies them: strings compare by code point,
 * lists compare lexicographically, and `sorted` is a stable sort.
 */
module Sorting {

  ghost predicate StrictTotalOrder<T(!new)>(lt: (T, T) -> bool) {
    && (forall a :: !lt(a, a))
    && (forall a, b, c :: lt(a, b) && lt(b, c) ==> lt(a, c))
    && (forall a, b :: a != b ==> lt(a, b) || lt(b, a))
  }

  ghost predicate TotalPreorder<T(!new)>(le: (T, T) -> bool) {
    && (forall a, b :: le(a, b) || le(b, a))
    && (forall a, b, c :: le(a, b) && le(b, c) ==> le(a, c))
  }

  ghost predicate Antisymmetric<T(!new)>(le: (T, T) -> bool) {
    forall a, b :: le(a, b) && le(b, a) ==> a == b
  }

  /** Lexicographic order on sequences, the order of Python's `<` on `str` and on `list`. */
  function LexLess<T(==)>(a: seq<T>, b: seq<T>, lt: (T, T) -> bool): bool
    decreases |a|
  {
    if a == [] then b != []
    else if b == [] then false
    else lt(a[0], b[0]) || (a[0] == b[0] && LexLess(a[1..], b[1..], lt))
  }

  lemma {:induction false} LexIrreflexive<T(!new)>(a: seq<T>, lt: (T, T) -> bool)
    requires StrictTotalOrder(lt)
    ensures !LexLess(a, a, lt)
    decreases |a|
  {
    if a != [] {
      LexIrreflexive(a[1..], lt);
    }
  }

  lemma {:induction false} LexTransitive<T(!new)>(a: seq<T>, b: seq<T>, c: seq<T>, lt: (T, T) -> bool)
    requires StrictTotalOrder(lt)
    requires LexLess(a, b, lt) && LexLess(b, c, lt)
    ensures LexLess(a, c, lt)
    decreases |a|
  {
    if a != [] && b != [] && c != [] && a[0] == b[0] && b[0] == c[0] {
      LexTransitive(a[1..], b[1..], c[1..], lt);
    }
  }

  lemma {:induction false} LexTotal<T(!new)>(a: seq<T>, b: seq<T>, lt: (T, T) -> bool)
    requires StrictTotalOrder(lt)
    requires a != b
    ensures LexLess(a, b, lt) || LexLess(b, a, lt)
    decreases |a|
  {
    if a != [] && b != [] && a[0] == b[0] {
      assert a == [a[0]] + a[1..] && b == [b[0]] + b[1..];
      LexTotal(a[1..], b[1..], lt);
    }
  }

  /** The lexicographic extension of a strict total order is a strict total order. */
  lemma LexStrictTotal<T(!new)>(lt: (T, T) -> bool)
    requires StrictTotalOrder(lt)
    ensures StrictTotalOrder((a: seq<T>, b: seq<T>) => LexLess(a, b, lt))
  {
    forall a: seq<T> ensures !LexLess(a, a, lt) {
      LexIrreflexive(a, lt);
    }
    forall a: seq<T>, b: seq<T>, c: seq<T> | LexLess(a, b, lt) && LexLess(b, c, lt)
      ensures LexLess(a, c, lt)
    {
      LexTransitive(a, b, c, lt);
    }
    forall a: seq<T>, b: seq<T> | a != b ensures LexLess(a, b, lt) || LexLess(b, a, lt) {
      LexTotal(a, b, lt);
    }
  }

  predicate CharLess(a: char, b: char) {
    a < b
  }

  /** Python's `<` on `str`: code point by code point. */
  predicate StrLess(a: string, b: string) {
    LexLess(a, b, CharLess)
  }

  /** `<=` on `str`. */
  predicate StrLe(a: string, b: string) {
    !StrLess(b, a)
  }

  lemma StrLessStrictTotal()
    ensures StrictTotalOrder(StrLess)
  {
    forall a: string ensures !StrLess(a, a) {
      LexIrreflexive(a, CharLess);
    }
    forall a: string, b: string, c: string | StrLess(a, b) && StrLess(b, c) ensures StrLess(a, c) {
      LexTransitive(a, b, c, CharLess);
    }
    forall a: string, b: string | a != b ensures StrLess(a, b) || StrLess(b, a) {
      LexTotal(a, b, CharLess);
    }
  }

  /** The order `sorted(..., key=key)` sorts by: `x` goes before `y` unless `key(y) < key(x)`. */
  function ByKey<T, K>(key: T -> K, lt: (K, K) -> bool): (T, T) -> bool {
    (x, y) => !lt(key(y), key(x))
  }

  /** Comparing by a key under a strict total order is a total preorder. */
  lemma ByKeyTotalPreorder<T(!new), K(!new)>(key: T -> K, lt: (K, K) -> bool)
    requires StrictTotalOrder(lt)
    ensures TotalPreorder(ByKey(key, lt))
  {
  }

  /** Compare by a key, and break ties between elements with equal keys by `tie`. */
  function ThenBy<T, K(==)>(key: T -> K, lt: (K, K) -> bool, tie: (T, T) -> bool): (T, T) -> bool {
    (x, y) => lt(key(x), key(y)) || (key(x) == key(y) && tie(x, y))
  }

  /** A key under a strict total order, with ties broken by a total order, is a total order. */
  lemma ThenByTotalOrder<T(!new), K(!new)>(key: T -> K, lt: (K, K) -> bool, tie: (T, T) -> bool)
    requires StrictTotalOrder(lt)
    requires TotalPreorder(tie) && Antisymmetric(tie)
    ensures TotalPreorder(ThenBy(key, lt, tie)) && Antisymmetric(ThenBy(key, lt, tie))
  {
  }

  lemma StrLeIsTotalOrder()
    ensures TotalPreorder(StrLe) && Antisymmetric(StrLe)
  {
    StrLessStrictTotal();
  }

  ghost predicate SortedBy<T>(xs: seq<T>, le: (T, T) -> bool) {
    forall i, j :: 0 <= i < j < |xs| ==> le(xs[i], xs[j])
  }

  /** Inserts `x` before the first element it is `le` to: equal keys keep their order. */
  function InsertBy<T>(x: T, ys: seq<T>, le: (T, T) -> bool): (r: seq<T>)
    ensures multiset(r) == multiset(ys) + multiset{x}
    ensures |r| == |ys| + 1
  {
    if ys == [] then [x]
    else if le(x, ys[0]) then [x] + ys
    else
      assert ys == [ys[0]] + ys[1..];
      [ys[0]] + InsertBy(x, ys[1..], le)
  }

  /** Stable insertion sort: the model of Python's `sorted(xs, key=...)`. */
  function SortBy<T>(xs: seq<T>, le: (T, T) -> bool): (r: seq<T>)
    ensures multiset(r) == multiset(xs)
    ensures |r| == |xs|
  {
    if xs == [] then []
    else
      assert xs == [xs[0]] + xs[1..];
      InsertBy(xs[0], SortBy(xs[1..], le), le)
  }

  lemma {:induction false} InsertBySorted<T(!new)>(x: T, ys: seq<T>, le: (T, T) -> bool)
    requires TotalPreorder(le)
    requires SortedBy(ys, le)
    ensures SortedBy(InsertBy(x, ys, le), le)
    decreases |ys|
  {
    if ys != [] && !le(x, ys[0]) {
      InsertBySorted(x, ys[1..], le);
      var r := InsertBy(x, ys[1..], le);
      forall k | 0 <= k < |r| ensures le(ys[0], r[k]) {
        assert r[k] in multiset(r);
        assert r[k] in multiset(ys[1..]) + multiset{x};
        if r[k] != x {
          assert r[k] in ys[1..];
        }
      }
    }
  }

  lemma {:induction false} SortBySorted<T(!new)>(xs: seq<T>, le: (T, T) -> bool)
    requires TotalPreorder(le)
    ensures SortedBy(SortBy(xs, le), le)
    decreases |xs|
  {
    if xs != [] {
      SortBySorted(xs[1..], le);
      InsertBySorted(xs[0], SortBy(xs[1..], le), le);
    }
  }

  lemma {:induction false} InsertByCongruent<T>(x: T, ys: seq<T>, le1: (T, T) -> bool, le2: (T, T) -> bool)
    requires forall y :: y in ys ==> le1(x, y) == le2(x, y)
    ensures InsertBy(x, ys, le1) == InsertBy(x, ys, le2)
    decreases |ys|
  {
    if ys != [] {
      InsertByCongruent(x, ys[1..], le1, le2);
    }
  }

  /** Sorting depends on the order only through how it compares the elements being sorted. */
  lemma {:induction false} SortByCongruent<T>(xs: seq<T>, le1: (T, T) -> bool, le2: (T, T) -> bool)
    requires forall a, b :: a in xs && b in xs ==> le1(a, b) == le2(a, b)
    ensures SortBy(xs, le1) == SortBy(xs, le2)
    decreases |xs|
  {
    if xs != [] {
      SortByCongruent(xs[1..], le1, le2);
      var rest := SortBy(xs[1..], le1);
      forall y | y in rest ensures le1(xs[0], y) == le2(xs[0], y) {
        assert y in multiset(rest);
        assert y in xs[1..];
      }
      InsertByCongruent(xs[0], rest, le1, le2);
    }
  }

  /** Under a total order, two sorted arrangements of one multiset are the same sequence. */
  lemma {:induction false} SortedUnique<T(!new)>(xs: seq<T>, ys: seq<T>, le: (T, T) -> bool)
    requires TotalPreorder(le) && Antisymmetric(le)
    requires SortedBy(xs, le) && SortedBy(ys, le)
    requires multiset(xs) == multiset(ys)
    ensures xs == ys
    decreases |xs|
  {
    if xs == [] {
      assert |multiset(ys)| == 0;
    } else {
      assert |ys| == |multiset(ys)| == |multiset(xs)| == |xs|;
      assert xs[0] in multiset(ys);
      assert ys[0] in multiset(xs);
      assert le(xs[0], ys[0]) by {
        var m :| 0 <= m < |xs| && xs[m] == ys[0];
        assert m == 0 || le(xs[0], xs[m]);
      }
      assert le(ys[0], xs[0]) by {
        var k :| 0 <= k < |ys| && ys[k] == xs[0];
        assert k == 0 || le(ys[0], ys[k]);
      }
      assert xs[0] == ys[0];
      assert xs == [xs[0]] + xs[1..] && ys == [ys[0]] + ys[1..];
      assert multiset(xs) == multiset{xs[0]} + multiset(xs[1..]);
      assert multiset(ys) == multiset{ys[0]} + multiset(ys[1..]);
      assert multiset(xs[1..]) == multiset(xs) - multiset{xs[0]};
      assert multiset(ys[1..]) == multiset(ys) - multiset{ys[0]};
      SortedUnique(xs[1..], ys[1..], le);
    }
  }

  /** Under a total order, sorting two arrangements of one multiset gives one sequence. */
  lemma SortByPermutation<T(!new)>(xs: seq<T>, ys: seq<T>, le: (T, T) -> bool)
    requires TotalPreorder(le) && Antisymmetric(le)
    requires multiset(xs) == multiset(ys)
    ensures SortBy(xs, le) == SortBy(ys, le)
  {
    SortBySorted(xs, le);
    SortBySorted(ys, le);
    SortedUnique(SortBy(xs, le), SortBy(ys, le), le);
  }

  /** `[f(x) for x in xs]`. */
  function MapSeq<A, B>(xs: seq<A>, f: A -> B): (ys: seq<B>)
    ensures |ys| == |xs|
    ensures forall i :: 0 <= i < |xs| ==> ys[i] == f(xs[i])
  {
    if xs == [] then [] else MapSeq(xs[..|xs| - 1], f) + [f(xs[|xs| - 1])]
  }

  /** Mapping one more element appends its image. */
  lemma MapSeqStep<A, B>(xs: seq<A>, f: A -> B, i: nat)
    requires i < |xs|
    ensures MapSeq(xs[..i + 1], f) == MapSeq(xs[..i], f) + [f(xs[i])]
  {
    assert xs[..i + 1][..i] == xs[..i];
  }

  lemma {:induction false} MapSeqConcat<A, B>(xs: seq<A>, ys: seq<A>, f: A -> B)
    ensures MapSeq(xs + ys, f) == MapSeq(xs, f) + MapSeq(ys, f)
  {
    var l, r := MapSeq(xs + ys, f), MapSeq(xs, f) + MapSeq(ys, f);
    assert |l| == |r|;
    forall i | 0 <= i < |l| ensures l[i] == r[i] {
      if i < |xs| {
        assert (xs + ys)[i] == xs[i];
      } else {
        assert (xs + ys)[i] == ys[i - |xs|];
      }
    }
  }

  /** Taking one element out of a sequence takes its image out of the mapped sequence. */
  lemma MapSeqRemove<A, B>(before: seq<A>, x: A, after: seq<A>, f: A -> B)
    ensures multiset(MapSeq(before + [x] + after, f)) == multiset(MapSeq(before + after, f)) + multiset{f(x)}
  {
    MapSeqConcat(before + [x], after, f);
    MapSeqConcat(before, [x], f);
    MapSeqConcat(before, after, f);
  }

  /** Mapping a rearranged sequence rearranges the results in the same way. */
  lemma {:induction false} MapSeqPermutation<A, B>(xs: seq<A>, ys: seq<A>, f: A -> B)
    requires multiset(xs) == multiset(ys)
    ensures multiset(MapSeq(xs, f)) == multiset(MapSeq(ys, f))
    decreases |xs|
  {
    if xs == [] {
      assert |multiset(ys)| == 0;
    } else {
      var init, x := xs[..|xs| - 1], xs[|xs| - 1];
      assert xs == init + [x];
      assert x in multiset(ys);
      var j :| 0 <= j < |ys| && ys[j] == x;
      var before, after := ys[..j], ys[j + 1..];
      assert ys == before + [x] + after;
      assert multiset(init) == multiset(before + after) by {
        assert multiset(xs) == multiset(init) + multiset{x};
        assert multiset(ys) == multiset(before) + multiset{x} + multiset(after);
        assert multiset(before + after) == multiset(before) + multiset(after);
        assert multiset(init) == multiset(xs) - multiset{x};
        assert multiset(before + after) == multiset(ys) - multiset{x};
      }
      MapSeqPermutation(init, before + after, f);
      MapSeqRemove(before, x, after, f);
      MapSeqConcat(init, [x], f);
    }
  }

  ghost predicate NoDuplicates<T>(xs: seq<T>) {
    forall i, j :: 0 <= i < j < |xs| ==> xs[i] != xs[j]
  }

  /** The elements of `xs`, each once, in order of first occurrence (Python's `set(...)` before sorting). */
  function Distinct<T(==,!new)>(xs: seq<T>): (r: seq<T>)
    ensures forall x :: x in r <==> x in xs
    ensures NoDuplicates(r)
  {
    if xs == [] then []
    else if xs[|xs| - 1] in xs[..|xs| - 1] then Distinct(xs[..|xs| - 1])
    else
      assert forall x :: x in xs <==> x in xs[..|xs| - 1] || x == xs[|xs| - 1];
      Distinct(xs[..|xs| - 1]) + [xs[|xs| - 1]]
  }

  lemma {:induction false} NoDuplicatesMultiset<T>(xs: seq<T>)
    requires NoDuplicates(xs)
    ensures multiset(xs) == multiset(set x | x in xs)
    decreases |xs|
  {
    if xs != [] {
      var init, last := xs[..|xs| - 1], xs[|xs| - 1];
      assert xs == init + [last];
      NoDuplicatesMultiset(init);
      assert last !in init;
      assert (set x | x in xs) == (set x | x in init) + {last};
    }
  }

  /** Under a total order, sorting two duplicate-free sequences of the same elements gives one sequence. */
  lemma SortByUnique<T(!new)>(xs: seq<T>, ys: seq<T>, le: (T, T) -> bool)
    requires TotalPreorder(le) && Antisymmetric(le)
    requires NoDuplicates(xs) && NoDuplicates(ys)
    requires forall x :: x in xs <==> x in ys
    ensures SortBy(xs, le) == SortBy(ys, le)
  {
    NoDuplicatesMultiset(xs);
    NoDuplicatesMultiset(ys);
    assert (set x | x in xs) == (set x | x in ys);
    SortByPermutation(xs, ys, le);
  }

  /** `sorted(set(xs))` for strings. */
  function SortedSet(xs: seq<string>): (r: seq<string>)
    ensures forall x :: x in r <==> x in xs
  {
    var d := Distinct(xs);
    var r := SortBy(d, StrLe);
    assert forall x :: x in r <==> x in multiset(r);
    r
  }

  lemma {:induction false} PermutationKeepsNoDuplicates<T>(a: seq<T>, b: seq<T>)
    requires NoDuplicates(a) && multiset(a) == multiset(b)
    ensures NoDuplicates(b)
  {
    NoDuplicatesMultiset(a);
    forall i, j | 0 <= i < j < |b| ensures b[i] != b[j] {
      assert b == b[..j] + [b[j]] + b[j + 1..];
      assert multiset(b)[b[j]] <= 1 by {
        assert multiset(b) == multiset(set x | x in a);
      }
      assert multiset(b)[b[j]] >= multiset(b[..j])[b[j]] + 1;
      assert b[j] !in b[..j];
      assert b[i] in b[..j];
    }
  }

  /** `sorted(set(xs))` is strictly increasing and is determined by the set of elements alone. */
  lemma SortedSetCanonical(xs: seq<string>, ys: seq<string>)
    requires forall x :: x in xs <==> x in ys
    ensures SortedSet(xs) == SortedSet(ys)
    ensures forall i, j :: 0 <= i < j < |SortedSet(xs)| ==> StrLess(SortedSet(xs)[i], SortedSet(xs)[j])
  {
    StrLeIsTotalOrder();
    var dx, dy := Distinct(xs), Distinct(ys);
    NoDuplicatesMultiset(dx);
    NoDuplicatesMultiset(dy);
    assert (set x | x in dx) == (set x | x in dy);
    SortBySorted(dx, StrLe);
    SortBySorted(dy, StrLe);
    SortedUnique(SortBy(dx, StrLe), SortBy(dy, StrLe), StrLe);
    var r := SortedSet(xs);
    PermutationKeepsNoDuplicates(dx, r);
    StrLessStrictTotal();
    forall i, j | 0 <= i < j < |r| ensures StrLess(r[i], r[j]) {
      assert StrLe(r[i], r[j]) && r[i] != r[j];
    }
  }
}
