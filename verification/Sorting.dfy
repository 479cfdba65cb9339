/** The standard library's stable `sort_by_key` and `dedup`, as functions with the facts that
    determine them. */
module Sorting {
  import opened Lists

  function Insert<T>(x: T, s: seq<T>, key: T -> int): seq<T> {
    if s == [] || key(x) <= key(s[0]) then [x] + s else [s[0]] + Insert(x, s[1..], key)
  }

  function SortByKey<T>(s: seq<T>, key: T -> int): seq<T> {
    if s == [] then [] else Insert(s[0], SortByKey(s[1..], key), key)
  }

  predicate SortedBy<T>(s: seq<T>, key: T -> int) {
    forall i, j :: 0 <= i < j < |s| ==> key(s[i]) <= key(s[j])
  }

  /** The elements with key `k`, in order. */
  function WithKey<T>(s: seq<T>, key: T -> int, k: int): seq<T> {
    if s == [] then [] else (if key(s[0]) == k then [s[0]] else []) + WithKey(s[1..], key, k)
  }

  lemma AllAtLeastFirst<T>(s: seq<T>, key: T -> int, y: T)
    requires SortedBy(s, key) && s != [] && y in s
    ensures key(s[0]) <= key(y)
  {
    var i :| 0 <= i < |s| && s[i] == y;
  }

  lemma {:induction false} InsertMembers<T>(x: T, s: seq<T>, key: T -> int)
    ensures multiset(Insert(x, s, key)) == multiset{x} + multiset(s)
  {
    if s != [] && key(x) > key(s[0]) {
      InsertMembers(x, s[1..], key);
      assert s == [s[0]] + s[1..];
    }
  }

  lemma {:induction false} InsertSorted<T>(x: T, s: seq<T>, key: T -> int)
    requires SortedBy(s, key)
    ensures SortedBy(Insert(x, s, key), key)
  {
    if s != [] && key(x) > key(s[0]) {
      InsertSorted(x, s[1..], key);
      InsertMembers(x, s[1..], key);
      var rest := Insert(x, s[1..], key);
      forall j | 0 <= j < |rest| ensures key(s[0]) <= key(rest[j]) {
        assert rest[j] in multiset(rest);
        assert rest[j] == x || rest[j] in multiset(s[1..]);
        if rest[j] != x { AllAtLeastFirst(s, key, rest[j]); }
      }
    }
  }

  lemma {:induction false} InsertStable<T>(x: T, s: seq<T>, key: T -> int, k: int)
    ensures WithKey(Insert(x, s, key), key, k) == WithKey([x] + s, key, k)
  {
    assert ([x] + s)[1..] == s;
    if s != [] && key(x) > key(s[0]) {
      var rest := Insert(x, s[1..], key);
      InsertStable(x, s[1..], key, k);
      assert ([s[0]] + rest)[1..] == rest && ([x] + s[1..])[1..] == s[1..];
    }
  }

  /** Sorted, a permutation, and stable: each key keeps its elements in their input order. */
  lemma {:induction false} SortFacts<T>(s: seq<T>, key: T -> int)
    ensures SortedBy(SortByKey(s, key), key)
    ensures multiset(SortByKey(s, key)) == multiset(s)
    ensures forall k :: WithKey(SortByKey(s, key), key, k) == WithKey(s, key, k)
  {
    hide WithKey, Insert;
    if s != [] {
      var rest := SortByKey(s[1..], key);
      SortFacts(s[1..], key);
      InsertMembers(s[0], rest, key);
      InsertSorted(s[0], rest, key);
      assert s == [s[0]] + s[1..];
      forall k ensures WithKey(SortByKey(s, key), key, k) == WithKey(s, key, k) {
        InsertStable(s[0], rest, key, k);
        WithKeyCons(s[0], rest, s, key, k);
      }
    }
  }

  lemma WithKeyCons<T>(x: T, rest: seq<T>, s: seq<T>, key: T -> int, k: int)
    requires s != [] && s[0] == x && WithKey(rest, key, k) == WithKey(s[1..], key, k)
    ensures WithKey([x] + rest, key, k) == WithKey(s, key, k)
  {
    assert ([x] + rest)[1..] == rest;
  }

  lemma SortLength<T>(s: seq<T>, key: T -> int)
    ensures |SortByKey(s, key)| == |s|
  {
    SortFacts(s, key);
    assert |multiset(SortByKey(s, key))| == |multiset(s)|;
  }

  lemma SortMember<T>(s: seq<T>, key: T -> int, x: T)
    ensures x in SortByKey(s, key) <==> x in s
  {
    SortFacts(s, key);
    assert x in SortByKey(s, key) <==> x in multiset(SortByKey(s, key));
    assert x in s <==> x in multiset(s);
  }

  lemma {:induction false} WithKeyEmpty<T>(s: seq<T>, key: T -> int, k: int)
    ensures WithKey(s, key, k) == [] <==> forall x :: x in s ==> key(x) != k
  {
    if s != [] {
      WithKeyEmpty(s[1..], key, k);
      assert s == [s[0]] + s[1..];
    }
  }

  /** Those facts leave one answer, so any stable sort returns `SortByKey`. */
  lemma {:induction false} StableSortUnique<T>(a: seq<T>, b: seq<T>, key: T -> int)
    requires SortedBy(a, key) && SortedBy(b, key)
    requires forall k :: WithKey(a, key, k) == WithKey(b, key, k)
    ensures a == b
    decreases |a|
  {
    assert a != [] ==> WithKey(a, key, key(a[0])) == WithKey(b, key, key(a[0])) != [];
    assert b != [] ==> WithKey(b, key, key(b[0])) == WithKey(a, key, key(b[0])) != [];
    if a != [] && b != [] {
      SameLeastKey(a, b, key);
      SameLeastKey(b, a, key);
      assert WithKey(a, key, key(a[0]))[0] == a[0] && WithKey(b, key, key(a[0]))[0] == b[0];
      forall k ensures WithKey(a[1..], key, k) == WithKey(b[1..], key, k) {
        WithKeyTail(a, key, k);
        WithKeyTail(b, key, k);
      }
      StableSortUnique(a[1..], b[1..], key);
      SameConsSame(a, b);
    }
  }

  lemma WithKeyTail<T>(s: seq<T>, key: T -> int, k: int)
    requires s != []
    ensures WithKey(s[1..], key, k) == if key(s[0]) == k then WithKey(s, key, k)[1..] else WithKey(s, key, k)
  {
  }

  lemma SameLeastKey<T>(a: seq<T>, b: seq<T>, key: T -> int)
    requires SortedBy(a, key) && SortedBy(b, key) && a != [] && b != []
    requires forall k :: WithKey(a, key, k) == WithKey(b, key, k)
    ensures key(a[0]) <= key(b[0])
  {
    WithKeyEmpty(a, key, key(b[0]));
    WithKeyEmpty(b, key, key(b[0]));
    assert b[0] in b;
  }

  /** `Vec::dedup`: drop each element equal to the one before it. */
  function Dedup<T(==)>(s: seq<T>): seq<T> {
    if |s| < 2 then s
    else if s[0] == s[1] then Dedup(s[1..])
    else [s[0]] + Dedup(s[1..])
  }

  lemma {:induction false} DedupMember<T>(s: seq<T>, x: T)
    ensures x in Dedup(s) <==> x in s
  {
    if |s| >= 2 {
      DedupMember(s[1..], x);
      assert s == [s[0]] + s[1..];
    }
  }

  lemma {:induction false} DedupSorted<T>(s: seq<T>, key: T -> int)
    requires SortedBy(s, key)
    ensures SortedBy(Dedup(s), key)
  {
    if |s| >= 2 {
      DedupSorted(s[1..], key);
      var rest := Dedup(s[1..]);
      forall j | 0 <= j < |rest| ensures key(s[0]) <= key(rest[j]) {
        DedupMember(s[1..], rest[j]);
        AllAtLeastFirst(s, key, rest[j]);
      }
    }
  }

  /** Two places of one sequence that hold one value count twice. */
  lemma TwicePresent<T>(s: seq<T>, i: nat, j: nat)
    requires i < j < |s| && s[i] == s[j]
    ensures multiset(s)[s[i]] >= 2
  {
    assert s == s[..j] + [s[j]] + s[j + 1..];
    assert s[i] in s[..j];
  }

  lemma {:induction false} OncePresent<T>(s: seq<T>, i: nat)
    requires i < |s| && forall j, k :: 0 <= j < k < |s| ==> s[j] != s[k]
    ensures multiset(s)[s[i]] == 1
  {
    assert s == s[..i] + [s[i]] + s[i + 1..];
    assert s[i] !in s[..i] && s[i] !in s[i + 1..];
  }

  lemma SameLabelSame<T>(s: seq<T>, id: T -> int, x: T, y: T)
    requires forall i, j :: 0 <= i < j < |s| ==> id(s[i]) != id(s[j])
    requires x in s && y in s
    ensures id(x) == id(y) ==> x == y
  {
    var i :| 0 <= i < |s| && s[i] == x;
    var j :| 0 <= j < |s| && s[j] == y;
    assert i < j || j < i || i == j;
  }

  /** Sorting keeps a label that tells the elements apart telling them apart. */
  lemma SortKeepsDistinct<T>(s: seq<T>, key: T -> int, id: T -> int)
    requires forall i, j :: 0 <= i < j < |s| ==> id(s[i]) != id(s[j])
    ensures var t := SortByKey(s, key); forall i, j :: 0 <= i < j < |t| ==> id(t[i]) != id(t[j])
  {
    var t := SortByKey(s, key);
    SortFacts(s, key);
    forall i, j | 0 <= i < j < |t| ensures id(t[i]) != id(t[j]) {
      SortMember(s, key, t[i]);
      SortMember(s, key, t[j]);
      SameLabelSame(s, id, t[i], t[j]);
      if id(t[i]) == id(t[j]) {
        TwicePresent(t, i, j);
        var k :| 0 <= k < |s| && s[k] == t[i];
        OncePresent(s, k);
        assert false;
      }
    }
  }

  predicate StrictBy<T>(s: seq<T>, key: T -> int) {
    forall i, j :: 0 <= i < j < |s| ==> key(s[i]) < key(s[j])
  }

  lemma StrictNone<T>(key: T -> int)
    ensures StrictBy([], key)
  {
  }

  lemma StrictSnoc<T>(s: seq<T>, x: T, key: T -> int)
    requires StrictBy(s, key) && forall j :: 0 <= j < |s| ==> key(s[j]) < key(x)
    ensures StrictBy(s + [x], key)
  {
  }

  /** A set listed in strictly increasing order of a key has one list. */
  lemma {:induction false} StrictListUnique<T>(a: seq<T>, b: seq<T>, key: T -> int)
    requires StrictBy(a, key) && StrictBy(b, key)
    requires forall i :: 0 <= i < |a| ==> a[i] in b
    requires forall i :: 0 <= i < |b| ==> b[i] in a
    ensures a == b
    decreases |a|
  {
    assert a != [] ==> a[0] in b;
    assert b != [] ==> b[0] in a;
    if a != [] && b != [] {
      SameHead(a, b, key);
      MembersOfTail(a, b, key);
      MembersOfTail(b, a, key);
      StrictListUnique(a[1..], b[1..], key);
      SameConsSame(a, b);
    }
  }

  lemma SameConsSame<T>(a: seq<T>, b: seq<T>)
    requires a != [] && b != [] && a[0] == b[0] && a[1..] == b[1..]
    ensures a == b
  {
    assert a == [a[0]] + a[1..] && b == [b[0]] + b[1..];
  }

  lemma SameHead<T>(a: seq<T>, b: seq<T>, key: T -> int)
    requires StrictBy(a, key) && StrictBy(b, key) && a != [] && b != [] && a[0] in b && b[0] in a
    ensures a[0] == b[0]
  {
    var i :| 0 <= i < |b| && b[i] == a[0];
    var j :| 0 <= j < |a| && a[j] == b[0];
    assert key(b[0]) <= key(b[i]) && key(a[0]) <= key(a[j]);
  }

  lemma MembersOfTail<T>(a: seq<T>, b: seq<T>, key: T -> int)
    requires StrictBy(a, key) && a != [] && b != [] && a[0] == b[0]
    requires forall i :: 0 <= i < |a| ==> a[i] in b
    ensures forall i :: 0 <= i < |a[1..]| ==> a[1..][i] in b[1..]
  {
    forall i | 0 <= i < |a[1..]| ensures a[1..][i] in b[1..] {
      assert key(a[0]) < key(a[i + 1]) && a[i + 1] in b;
      assert b == [b[0]] + b[1..];
    }
  }

  /** Pieces of at most one element with ascending keys concatenate to a strictly ascending list. */
  lemma {:induction false} ConcatAscends<T>(n: nat, f: nat -> seq<T>, key: T -> int)
    requires forall i :: 0 <= i < n ==> |f(i)| <= 1
    requires forall i, j :: 0 <= i < j < n && f(i) != [] && f(j) != [] ==> key(f(i)[0]) < key(f(j)[0])
    ensures StrictBy(Concat(n, f), key)
  {
    if n > 0 {
      ConcatAscends(n - 1, f, key);
      var s := Concat(n - 1, f);
      if f(n - 1) != [] {
        forall k | 0 <= k < |s| ensures key(s[k]) < key(f(n - 1)[0]) {
          ConcatMember(n - 1, f, s[k]);
          var i :| 0 <= i < n - 1 && s[k] in f(i);
          assert f(i) == [s[k]];
        }
        assert Concat(n, f) == s + [f(n - 1)[0]];
      } else {
        assert Concat(n, f) == s;
      }
    }
  }
}
