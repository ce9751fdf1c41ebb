/** Sorting by name in UTF-16 order: a specification function, what determines its
    result, and the in-place insertion sort of the corpus reader. */
module Sorting {
  import opened Order

  datatype Entry<+T> = Entry(name: string, value: T)

  function NameOf<T>(e: Entry<T>): string {
    e.name
  }

  function Self(s: string): string {
    s
  }

  /** Put x behind the last element that is not above it. */
  function Insert<T>(s: seq<T>, x: T, key: T -> string, less: (string, string) -> bool): seq<T> {
    if s == [] || !less(key(x), key(s[|s| - 1])) then s + [x]
    else Insert(s[..|s| - 1], x, key, less) + [s[|s| - 1]]
  }

  function SortBy<T>(s: seq<T>, key: T -> string, less: (string, string) -> bool): seq<T> {
    if s == [] then [] else Insert(SortBy(s[..|s| - 1], key, less), s[|s| - 1], key, less)
  }

  /** Sorted by UTF-16 code units. */
  function Sort<T>(s: seq<T>, key: T -> string): seq<T> {
    SortBy(s, key, Utf16Less)
  }

  lemma {:induction false} InsertPermutes<T>(s: seq<T>, x: T, key: T -> string, less: (string, string) -> bool)
    ensures multiset(Insert(s, x, key, less)) == multiset(s) + multiset{x}
  {
    if s == [] || !less(key(x), key(s[|s| - 1])) {
    } else {
      InsertPermutes(s[..|s| - 1], x, key, less);
      assert s == s[..|s| - 1] + [s[|s| - 1]];
    }
  }

  lemma {:induction false} SortByPermutes<T>(s: seq<T>, key: T -> string, less: (string, string) -> bool)
    ensures multiset(SortBy(s, key, less)) == multiset(s)
    ensures |SortBy(s, key, less)| == |s|
    ensures forall x :: x in SortBy(s, key, less) <==> x in s
  {
    var r := SortBy(s, key, less);
    if s != [] {
      SortByPermutes(s[..|s| - 1], key, less);
      InsertPermutes(SortBy(s[..|s| - 1], key, less), s[|s| - 1], key, less);
      assert s == s[..|s| - 1] + [s[|s| - 1]];
    }
    assert |r| == |multiset(r)| == |multiset(s)|;
    forall x ensures x in r <==> x in s {
      assert x in r <==> x in multiset(r);
      assert x in s <==> x in multiset(s);
    }
  }

  lemma SortedFrom<T>(s: seq<T>, key: T -> string, less: (string, string) -> bool, x: T)
    requires x in SortBy(s, key, less)
    ensures x in s
  {
    SortByPermutes(s, key, less);
  }

  lemma SortPermutes<T>(s: seq<T>, key: T -> string)
    ensures multiset(Sort(s, key)) == multiset(s)
    ensures |Sort(s, key)| == |s|
    ensures forall x :: x in Sort(s, key) <==> x in s
  {
    SortByPermutes(s, key, Utf16Less);
  }

  predicate Agree<T>(x: T, s: seq<T>, key: T -> string, f: (string, string) -> bool, g: (string, string) -> bool) {
    forall i :: 0 <= i < |s| ==> f(key(x), key(s[i])) == g(key(x), key(s[i]))
  }

  lemma InSorted<T>(s: seq<T>, key: T -> string, x: T)
    ensures x in Sort(s, key) <==> x in s
  {
    SortPermutes(s, key);
  }

  /** Two orders that agree on the keys sort alike. */
  lemma {:induction false} OrdersSortAlike<T>(s: seq<T>, key: T -> string, f: (string, string) -> bool, g: (string, string) -> bool)
    requires forall i :: 0 <= i < |s| ==> Agree(s[i], s, key, f, g)
    ensures SortBy(s, key, f) == SortBy(s, key, g)
  {
    if s != [] {
      var init, last := s[..|s| - 1], s[|s| - 1];
      assert Agree(last, s, key, f, g);
      forall i | 0 <= i < |init| ensures Agree(init[i], init, key, f, g) {
        assert Agree(s[i], s, key, f, g);
      }
      OrdersSortAlike(init, key, f, g);
      var r := SortBy(init, key, f);
      forall i | 0 <= i < |r| ensures f(key(last), key(r[i])) == g(key(last), key(r[i])) {
        SortedFrom(init, key, f, r[i]);
        var k :| 0 <= k < |init| && init[k] == r[i];
        assert s[k] == r[i];
      }
      OrdersInsertAlike(r, last, key, f, g);
    }
  }

  lemma {:induction false} OrdersInsertAlike<T>(s: seq<T>, x: T, key: T -> string, f: (string, string) -> bool, g: (string, string) -> bool)
    requires Agree(x, s, key, f, g)
    ensures Insert(s, x, key, f) == Insert(s, x, key, g)
  {
    if s != [] {
      OrdersInsertAlike(s[..|s| - 1], x, key, f, g);
    }
  }

  function Keys<T>(s: seq<T>, key: T -> string): (ks: seq<string>)
    ensures |ks| == |s| && forall i :: 0 <= i < |s| ==> ks[i] == key(s[i])
  {
    seq(|s|, i requires 0 <= i < |s| => key(s[i]))
  }

  /** No element stands before one that is below it. */
  predicate Ascending<T>(s: seq<T>, key: T -> string) {
    forall i, j :: 0 <= i < j < |s| ==> !Utf16Less(key(s[j]), key(s[i]))
  }

  predicate Distinct(ss: seq<string>) {
    forall i, j :: 0 <= i < j < |ss| ==> ss[i] != ss[j]
  }

  lemma {:induction false} InsertAscending<T>(s: seq<T>, x: T, key: T -> string)
    requires Ascending(s, key)
    ensures Ascending(Insert(s, x, key, Utf16Less), key)
  {
    hide Utf16Less;
    if s == [] || !Utf16Less(key(x), key(s[|s| - 1])) {
      forall i | 0 <= i < |s| ensures !Utf16Less(key(x), key(s[i])) {
        NotBelowChain(s, x, i, key);
      }
    } else {
      var init, last := s[..|s| - 1], s[|s| - 1];
      InsertAscending(init, x, key);
      var r := Insert(init, x, key, Utf16Less);
      InsertPermutes(init, x, key, Utf16Less);
      Utf16LessTotal(key(x), key(last));
      forall i | 0 <= i < |r| ensures !Utf16Less(key(last), key(r[i])) {
        assert r[i] in multiset(r);
        if r[i] != x {
          assert r[i] in multiset(init);
          assert r[i] in init;
        }
      }
    }
  }

  lemma NotBelowChain<T>(s: seq<T>, x: T, i: nat, key: T -> string)
    requires Ascending(s, key) && i < |s| && !Utf16Less(key(x), key(s[|s| - 1]))
    ensures !Utf16Less(key(x), key(s[i]))
  {
    var last := s[|s| - 1];
    if Utf16Less(key(x), key(s[i])) && i < |s| - 1 {
      Utf16LessTotal(key(s[i]), key(last));
      if key(s[i]) != key(last) {
        Utf16LessTransitive(key(x), key(s[i]), key(last));
      }
    }
  }

  lemma {:induction false} SortAscending<T>(s: seq<T>, key: T -> string)
    ensures Ascending(Sort(s, key), key)
  {
    if s != [] {
      SortAscending(s[..|s| - 1], key);
      InsertAscending(Sort(s[..|s| - 1], key), s[|s| - 1], key);
    }
  }

  /** Distinct names survive a permutation. */
  lemma {:induction false} DistinctPermuted<T>(a: seq<T>, b: seq<T>, key: T -> string)
    requires multiset(a) == multiset(b) && Distinct(Keys(a, key))
    ensures Distinct(Keys(b, key))
  {
    forall i, j | 0 <= i < j < |b| ensures key(b[i]) != key(b[j]) {
      if key(b[i]) == key(b[j]) {
        assert b[i] in multiset(a) && b[j] in multiset(a);
        var k :| 0 <= k < |a| && a[k] == b[i];
        var l :| 0 <= l < |a| && a[l] == b[j];
        assert Keys(a, key)[k] == Keys(a, key)[l];
        assert k == l;
        TwiceIn(b, i, j);
        assert multiset(a)[b[i]] >= 2;
        OnceIn(a, k, key);
      }
    }
  }

  lemma TwiceIn<T>(s: seq<T>, i: nat, j: nat)
    requires i < j < |s| && s[i] == s[j]
    ensures multiset(s)[s[i]] >= 2
  {
    assert s == s[..j] + s[j..];
    assert s[i] == s[..j][i] && s[j] == s[j..][0];
    assert multiset(s) == multiset(s[..j]) + multiset(s[j..]);
    assert s[i] in multiset(s[..j]) && s[j] in multiset(s[j..]);
  }

  lemma OnceIn<T>(s: seq<T>, k: nat, key: T -> string)
    requires k < |s| && Distinct(Keys(s, key))
    ensures multiset(s)[s[k]] == 1
  {
    assert s == s[..k] + [s[k]] + s[k + 1..];
    assert multiset(s) == multiset(s[..k]) + multiset{s[k]} + multiset(s[k + 1..]);
    forall i | 0 <= i < |s| && i != k ensures s[i] != s[k] {
      assert Keys(s, key)[i] != Keys(s, key)[k];
    }
  }

  /** With distinct names the sorted sequence is strictly ascending. */
  lemma SortStrict<T>(s: seq<T>, key: T -> string)
    requires Distinct(Keys(s, key))
    ensures StrictlyAscending(Keys(Sort(s, key), key))
  {
    var r := Sort(s, key);
    SortAscending(s, key);
    SortPermutes(s, key);
    DistinctPermuted(s, r, key);
    forall i, j | 0 <= i < j < |r| ensures Utf16Less(Keys(r, key)[i], Keys(r, key)[j]) {
      Utf16LessTotal(key(r[i]), key(r[j]));
    }
  }

  /** Member order in the input does not reach the sorted sequence. */
  lemma SortForgetsOrder<T>(a: seq<T>, b: seq<T>, key: T -> string)
    requires multiset(a) == multiset(b) && Distinct(Keys(a, key))
    ensures Sort(a, key) == Sort(b, key)
  {
    DistinctPermuted(a, b, key);
    SortStrict(a, key);
    SortStrict(b, key);
    SortPermutes(a, key);
    SortPermutes(b, key);
    forall x ensures x in Sort(a, key) <==> x in Sort(b, key) {
      assert x in a <==> x in multiset(a);
      assert x in b <==> x in multiset(b);
    }
    SortedUnique(Sort(a, key), Sort(b, key), key);
  }

  lemma {:induction false} SortedUnique<T>(a: seq<T>, b: seq<T>, key: T -> string)
    requires forall x :: x in a <==> x in b
    requires StrictlyAscending(Keys(a, key)) && StrictlyAscending(Keys(b, key))
    ensures a == b
  {
    var ka, kb := Keys(a, key), Keys(b, key);
    forall x ensures x in ka <==> x in kb {
      SameKeys(a, b, key, x);
      SameKeys(b, a, key, x);
    }
    AscendingUnique(ka, kb);
    AscendingDistinct(ka);
    assert |a| == |ka| == |kb| == |b|;
    forall i | 0 <= i < |a| ensures a[i] == b[i] {
      assert a[i] in b;
      var j :| 0 <= j < |b| && b[j] == a[i];
      assert ka[i] == kb[j] == ka[j];
    }
  }

  lemma SameKeys<T>(a: seq<T>, b: seq<T>, key: T -> string, x: string)
    requires forall y :: y in a ==> y in b
    ensures x in Keys(a, key) ==> x in Keys(b, key)
  {
    if x in Keys(a, key) {
      var i :| 0 <= i < |a| && Keys(a, key)[i] == x;
      assert a[i] in b;
      var j :| 0 <= j < |b| && b[j] == a[i];
      assert Keys(b, key)[j] == x;
    }
  }

  /** A strictly ascending sequence is its own sorted form. */
  lemma {:induction false} SortFixed<T>(s: seq<T>, key: T -> string)
    requires StrictlyAscending(Keys(s, key))
    ensures Sort(s, key) == s
  {
    AscendingDistinct(Keys(s, key));
    SortStrict(s, key);
    SortPermutes(s, key);
    SortedUnique(Sort(s, key), s, key);
  }

  function Map<A, B>(s: seq<A>, f: A -> B): (r: seq<B>)
    ensures |r| == |s| && forall i :: 0 <= i < |s| ==> r[i] == f(s[i])
  {
    seq(|s|, i requires 0 <= i < |s| => f(s[i]))
  }

  /** Sorting commutes with a map that keeps the names. */
  lemma SortMap<A(!new), B>(s: seq<A>, f: A -> B, ka: A -> string, kb: B -> string)
    requires forall a :: kb(f(a)) == ka(a)
    ensures Sort(Map(s, f), kb) == Map(Sort(s, ka), f)
  {
    SortByMap(s, f, ka, kb, Utf16Less);
  }

  lemma {:induction false} SortByMap<A(!new), B>(s: seq<A>, f: A -> B, ka: A -> string, kb: B -> string, less: (string, string) -> bool)
    requires forall a :: kb(f(a)) == ka(a)
    ensures SortBy(Map(s, f), kb, less) == Map(SortBy(s, ka, less), f)
  {
    if s != [] {
      var init, last := s[..|s| - 1], s[|s| - 1];
      var m := Map(s, f);
      assert m[..|m| - 1] == Map(init, f) && m[|m| - 1] == f(last);
      SortByMap(init, f, ka, kb, less);
      InsertMap(SortBy(init, ka, less), last, f, ka, kb, less);
    }
  }

  lemma {:induction false} InsertMap<A(!new), B>(s: seq<A>, x: A, f: A -> B, ka: A -> string, kb: B -> string, less: (string, string) -> bool)
    requires forall a :: kb(f(a)) == ka(a)
    ensures Insert(Map(s, f), f(x), kb, less) == Map(Insert(s, x, ka, less), f)
  {
    if s == [] || !less(ka(x), ka(s[|s| - 1])) {
      MapAppend(s, [x], f);
    } else {
      var init, last := s[..|s| - 1], s[|s| - 1];
      var m := Map(s, f);
      assert m[..|m| - 1] == Map(init, f) && m[|m| - 1] == f(last);
      InsertMap(init, x, f, ka, kb, less);
      MapAppend(Insert(init, x, ka, less), [last], f);
      assert kb(f(last)) == ka(last);
    }
  }

  lemma MapAppend<A, B>(a: seq<A>, b: seq<A>, f: A -> B)
    ensures Map(a + b, f) == Map(a, f) + Map(b, f)
    ensures |b| == 1 ==> Map(b, f) == [f(b[0])]
  {
  }

  /** The inner loop of sortByUTF16: swap names[i] down to its place in the sorted
      prefix before it. */
  method Sink(names: array<string>, i: nat)
    requires i < names.Length
    modifies names
    ensures names[..i + 1] == Insert(old(names[..i]), old(names[i]), Self, Utf16Less)
    ensures names[i + 1..] == old(names[i + 1..])
  {
    ghost var sorted, x := names[..i], names[i];
    var j := i;
    assert names[..i + 1] == sorted[..j] + [x] + sorted[j..];
    while j > 0 && Utf16Less(names[j], names[j - 1])
      invariant 0 <= j <= i
      invariant names[..i + 1] == sorted[..j] + [x] + sorted[j..]
      invariant names[i + 1..] == old(names[i + 1..])
      invariant forall k :: j <= k < i ==> Utf16Less(x, sorted[k])
    {
      ghost var was := names[..i + 1];
      Neighbours(was, sorted, x, j);
      assert names[j] == was[j] && names[j - 1] == was[j - 1];
      names[j], names[j - 1] := names[j - 1], names[j];
      assert names[..i + 1] == was[j := was[j - 1]][j - 1 := was[j]];
      j := j - 1;
    }
    Neighbours(names[..i + 1], sorted, x, j);
    assert names[j] == names[..i + 1][j];
    assert j > 0 ==> names[j - 1] == names[..i + 1][j - 1];
    InsertAt(sorted, x, j);
  }

  /** x at place j among the sorted elements, and after one swap. */
  lemma Neighbours(s: seq<string>, sorted: seq<string>, x: string, j: nat)
    requires j <= |sorted| && s == sorted[..j] + [x] + sorted[j..]
    ensures s[j] == x && (j > 0 ==> s[j - 1] == sorted[j - 1])
    ensures j > 0 ==> s[j := s[j - 1]][j - 1 := x] == sorted[..j - 1] + [x] + sorted[j - 1..]
  {
  }

  lemma {:induction false} InsertAt(sorted: seq<string>, x: string, j: nat)
    requires j <= |sorted| && forall k :: j <= k < |sorted| ==> Utf16Less(x, sorted[k])
    requires j > 0 ==> !Utf16Less(x, sorted[j - 1])
    ensures Insert(sorted, x, Self, Utf16Less) == sorted[..j] + [x] + sorted[j..]
  {
    hide Utf16Less;
    if j < |sorted| {
      var init := sorted[..|sorted| - 1];
      InsertAt(init, x, j);
      assert init[..j] == sorted[..j];
      assert init[j..] + [sorted[|sorted| - 1]] == sorted[j..];
    }
  }

  /** sortByUTF16: insertion sort, in place. */
  method SortByUtf16(names: array<string>)
    modifies names
    ensures names[..] == Sort(old(names[..]), Self)
  {
    ghost var was := names[..];
    for i := 0 to names.Length
      invariant names[..i] == Sort(was[..i], Self)
      invariant names[i..] == was[i..]
    {
      assert was[..i + 1][..i] == was[..i] && was[..i + 1][i] == was[i] == was[i..][0] == names[i..][0];
      assert names[i..][1..] == names[i + 1..] && was[i..][1..] == was[i + 1..];
      Sink(names, i);
    }
    assert names[..] == names[..names.Length] && was[..names.Length] == was;
  }
}
