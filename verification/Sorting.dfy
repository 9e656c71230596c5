/** Stable sorting by a key, as `Array.prototype.sort` does it, and what determines its result. */
module Sorting {
  import opened Texts

  /** A sort key: a string seen as the list of its character codes, or a one-element list for a number. */
  type Key = seq<int>

  /** The order `a <= b` of two keys: code by code, a proper prefix first. */
  predicate LexLe(a: Key, b: Key) {
    a == [] || (b != [] && (a[0] < b[0] || (a[0] == b[0] && LexLe(a[1..], b[1..]))))
  }

  lemma {:induction false} LexTotal(a: Key, b: Key)
    ensures LexLe(a, b) || LexLe(b, a)
  {
    if a != [] && b != [] {
      LexTotal(a[1..], b[1..]);
    }
  }

  lemma {:induction false} LexAntisymmetric(a: Key, b: Key)
    requires LexLe(a, b) && LexLe(b, a)
    ensures a == b
  {
    if a != [] {
      LexAntisymmetric(a[1..], b[1..]);
      assert a == [a[0]] + a[1..] && b == [b[0]] + b[1..];
    }
  }

  lemma {:induction false} LexTransitive(a: Key, b: Key, c: Key)
    requires LexLe(a, b) && LexLe(b, c)
    ensures LexLe(a, c)
  {
    if a != [] && a[0] == b[0] == c[0] {
      LexTransitive(a[1..], b[1..], c[1..]);
    }
  }

  /** The character codes of a string: the key under which strings are compared. */
  function Codes(s: string): (k: Key)
    ensures |k| == |s|
  {
    seq(|s|, i requires 0 <= i < |s| => s[i] as int)
  }

  lemma CodesInjective(a: string, b: string)
    requires Codes(a) == Codes(b)
    ensures a == b
  {
    forall i | 0 <= i < |a| ensures a[i] == b[i] {
      assert Codes(a)[i] == a[i] as int && Codes(b)[i] == b[i] as int;
    }
  }

  /** Comparing codes is comparing strings. */
  lemma {:induction false} CodesAscend(s: string, t: string)
    ensures LexLe(Codes(s), Codes(t)) <==> TextLe(s, t)
  {
    if s != "" && t != "" {
      assert Codes(s)[1..] == Codes(s[1..]) && Codes(t)[1..] == Codes(t[1..]);
      CodesAscend(s[1..], t[1..]);
      if s[0] == t[0] {
        SameHead(s, t);
      } else if s[0] < t[0] {
        assert DiffersUp(s, t, 0);
      }
    }
  }

  lemma SameHead(s: string, t: string)
    requires s != "" && t != "" && s[0] == t[0]
    ensures TextLe(s, t) <==> TextLe(s[1..], t[1..])
  {
    assert s == [s[0]] + s[1..] && t == [t[0]] + t[1..];
    if i :| DiffersUp(s, t, i) {
      assert s[..i] == [s[0]] + s[1..][..i - 1] && t[..i] == [t[0]] + t[1..][..i - 1];
      assert s[1..][..i - 1] == s[..i][1..] && t[1..][..i - 1] == t[..i][1..];
      assert DiffersUp(s[1..], t[1..], i - 1);
    }
    if i :| DiffersUp(s[1..], t[1..], i) {
      assert s[..i + 1] == [s[0]] + s[1..][..i] && t[..i + 1] == [t[0]] + t[1..][..i];
      assert DiffersUp(s, t, i + 1);
    }
  }

  lemma RemoveAt<T>(s: seq<T>, i: int)
    requires 0 <= i < |s|
    ensures multiset(s) == multiset(s[..i] + s[i + 1..]) + multiset{s[i]}
  {
    assert s == s[..i] + [s[i]] + s[i + 1..];
  }

  lemma SplitHead<T>(s: seq<T>)
    requires s != []
    ensures multiset(s) == multiset(s[1..]) + multiset{s[0]}
  {
    assert s == [s[0]] + s[1..];
  }

  lemma CancelOne<T>(m: multiset<T>, n: multiset<T>, x: T)
    requires m + multiset{x} == n + multiset{x}
    ensures m == n
  {
    assert m == m + multiset{x} - multiset{x};
  }

  lemma SameLength<T>(a: seq<T>, b: seq<T>)
    requires multiset(a) == multiset(b)
    ensures |a| == |b|
  {
    assert |multiset(a)| == |a| && |multiset(b)| == |b|;
  }

  lemma SameMembers<T>(a: seq<T>, b: seq<T>, x: T)
    requires multiset(a) == multiset(b)
    ensures x in a <==> x in b
  {
    assert x in multiset(a) <==> x in multiset(b);
  }

  // ---------- the sort ----------

  function Insert<T>(key: T -> Key, x: T, ys: seq<T>): seq<T> {
    if ys == [] || LexLe(key(x), key(ys[0])) then [x] + ys
    else [ys[0]] + Insert(key, x, ys[1..])
  }

  lemma {:induction false} InsertMembers<T>(key: T -> Key, x: T, ys: seq<T>)
    ensures multiset(Insert(key, x, ys)) == multiset(ys) + multiset{x}
  {
    if ys != [] {
      SplitHead(ys);
      InsertMembers(key, x, ys[1..]);
    }
  }

  /** The stable sort of `s` by `key`. `SortCharacterised` shows that nothing here depends on the algorithm. */
  function SortBy<T>(key: T -> Key, s: seq<T>): (r: seq<T>)
    ensures multiset(r) == multiset(s)
    ensures |r| == |s|
  {
    if s == [] then []
    else
      var r := Insert(key, s[0], SortBy(key, s[1..]));
      SplitHead(s);
      InsertMembers(key, s[0], SortBy(key, s[1..]));
      assert |multiset(r)| == |r| && |multiset(s)| == |s|;
      r
  }

  ghost predicate Sorted<T>(key: T -> Key, s: seq<T>) {
    forall i, j :: 0 <= i < j < |s| ==> LexLe(key(s[i]), key(s[j]))
  }

  /** The members of `s` whose key is `k`, in their order in `s`. */
  ghost function WithKey<T>(key: T -> Key, k: Key, s: seq<T>): seq<T> {
    if s == [] then []
    else (if key(s[0]) == k then [s[0]] else []) + WithKey(key, k, s[1..])
  }

  lemma {:induction false} InsertSorted<T>(key: T -> Key, x: T, ys: seq<T>)
    requires Sorted(key, ys)
    ensures Sorted(key, Insert(key, x, ys))
  {
    if ys != [] {
      if LexLe(key(x), key(ys[0])) {
        forall j | 0 <= j < |ys| ensures LexLe(key(x), key(ys[j])) {
          if j > 0 { LexTransitive(key(x), key(ys[0]), key(ys[j])); }
        }
      } else {
        LexTotal(key(x), key(ys[0]));
        InsertSorted(key, x, ys[1..]);
        var r := Insert(key, x, ys[1..]);
        InsertMembers(key, x, ys[1..]);
        forall j | 0 <= j < |r| ensures LexLe(key(ys[0]), key(r[j])) {
          assert r[j] in multiset(r);
          assert r[j] == x || r[j] in ys[1..];
        }
      }
    }
  }

  lemma {:induction false} SortSorted<T>(key: T -> Key, s: seq<T>)
    ensures Sorted(key, SortBy(key, s))
  {
    if s != [] {
      SortSorted(key, s[1..]);
      InsertSorted(key, s[0], SortBy(key, s[1..]));
    }
  }

  lemma WithKeyCons<T>(key: T -> Key, k: Key, x: T, s: seq<T>)
    ensures WithKey(key, k, [x] + s) == (if key(x) == k then [x] else []) + WithKey(key, k, s)
  {
    assert ([x] + s)[1..] == s;
  }

  lemma {:induction false} InsertStable<T>(key: T -> Key, x: T, ys: seq<T>, k: Key)
    ensures WithKey(key, k, Insert(key, x, ys)) == (if key(x) == k then [x] else []) + WithKey(key, k, ys)
  {
    if ys == [] || LexLe(key(x), key(ys[0])) {
      WithKeyCons(key, k, x, ys);
    } else {
      assert key(x) != key(ys[0]) by { LexTotal(key(x), key(x)); }
      InsertStable(key, x, ys[1..], k);
      WithKeyCons(key, k, ys[0], Insert(key, x, ys[1..]));
    }
  }

  lemma {:induction false} SortStable<T>(key: T -> Key, s: seq<T>, k: Key)
    ensures WithKey(key, k, SortBy(key, s)) == WithKey(key, k, s)
  {
    if s != [] {
      SortStable(key, s[1..], k);
      InsertStable(key, s[0], SortBy(key, s[1..]), k);
    }
  }

  lemma {:induction false} WithKeyConcat<T>(key: T -> Key, k: Key, a: seq<T>, b: seq<T>)
    ensures WithKey(key, k, a + b) == WithKey(key, k, a) + WithKey(key, k, b)
  {
    if a == [] {
      assert a + b == b;
    } else {
      assert a + b == [a[0]] + (a[1..] + b) && a == [a[0]] + a[1..];
      WithKeyCons(key, k, a[0], a[1..] + b);
      WithKeyCons(key, k, a[0], a[1..]);
      WithKeyConcat(key, k, a[1..], b);
    }
  }

  lemma {:induction false} WithKeyMember<T>(key: T -> Key, s: seq<T>, i: int)
    requires 0 <= i < |s|
    ensures s[i] in WithKey(key, key(s[i]), s)
  {
    if i > 0 {
      assert s[1..][i - 1] == s[i];
      WithKeyMember(key, s[1..], i - 1);
    }
  }

  lemma {:induction false} WithKeyOnly<T>(key: T -> Key, k: Key, s: seq<T>, x: T)
    requires x in WithKey(key, k, s)
    ensures x in s && key(x) == k
  {
    if s != [] && !(key(s[0]) == k && x == s[0]) {
      WithKeyOnly(key, k, s[1..], x);
    }
  }

  /** The head of a sorted sequence has a key that no member is below. */
  lemma HeadLeast<T>(key: T -> Key, a: seq<T>, x: T)
    requires Sorted(key, a) && x in a
    ensures LexLe(key(a[0]), key(x))
  {
    var i :| 0 <= i < |a| && a[i] == x;
    if i == 0 { LexTotal(key(x), key(x)); }
  }

  /** A sorted sequence is determined by its members of each key, in order. */
  lemma {:induction false} StableSortUnique<T>(key: T -> Key, a: seq<T>, b: seq<T>)
    requires Sorted(key, a) && Sorted(key, b)
    requires forall k :: WithKey(key, k, a) == WithKey(key, k, b)
    ensures a == b
  {
    if a == [] {
      if b != [] { WithKeyMember(key, b, 0); }
    } else if b == [] {
      WithKeyMember(key, a, 0);
    } else {
      var ka, kb := key(a[0]), key(b[0]);
      WithKeyMember(key, a, 0);
      WithKeyMember(key, b, 0);
      WithKeyOnly(key, ka, b, a[0]);
      WithKeyOnly(key, kb, a, b[0]);
      HeadLeast(key, a, b[0]);
      HeadLeast(key, b, a[0]);
      LexAntisymmetric(ka, kb);
      assert WithKey(key, ka, a)[0] == a[0] && WithKey(key, ka, b)[0] == b[0];
      forall k: Key ensures WithKey(key, k, a[1..]) == WithKey(key, k, b[1..]) {
        var head := if k == ka then [a[0]] else [];
        assert WithKey(key, k, a) == head + WithKey(key, k, a[1..]);
        assert WithKey(key, k, b) == head + WithKey(key, k, b[1..]);
        assert WithKey(key, k, a)[|head|..] == WithKey(key, k, a[1..]);
        assert WithKey(key, k, b)[|head|..] == WithKey(key, k, b[1..]);
      }
      StableSortUnique(key, a[1..], b[1..]);
      assert a == [a[0]] + a[1..] && b == [b[0]] + b[1..];
    }
  }

  /** Any sorted sequence that keeps the members of each key in order is `SortBy(key, s)`. */
  lemma SortCharacterised<T>(key: T -> Key, s: seq<T>, r: seq<T>)
    requires Sorted(key, r)
    requires forall k :: WithKey(key, k, r) == WithKey(key, k, s)
    ensures r == SortBy(key, s)
  {
    SortSorted(key, s);
    forall k ensures WithKey(key, k, r) == WithKey(key, k, SortBy(key, s)) {
      SortStable(key, s, k);
    }
    StableSortUnique(key, r, SortBy(key, s));
  }

  lemma SortOfSorted<T>(key: T -> Key, s: seq<T>)
    requires Sorted(key, s)
    ensures SortBy(key, s) == s
  {
    SortCharacterised(key, s, s);
  }

  /** A member can be added before or after sorting. */
  lemma SortAppend<T>(key: T -> Key, s: seq<T>, x: T)
    ensures SortBy(key, SortBy(key, s) + [x]) == SortBy(key, s + [x])
  {
    var t := SortBy(key, s);
    SortSorted(key, t + [x]);
    forall k ensures WithKey(key, k, SortBy(key, t + [x])) == WithKey(key, k, s + [x]) {
      SortStable(key, t + [x], k);
      WithKeyConcat(key, k, t, [x]);
      WithKeyConcat(key, k, s, [x]);
      SortStable(key, s, k);
    }
    SortCharacterised(key, s + [x], SortBy(key, t + [x]));
  }

  // ---------- sorting by two keys ----------

  /** Members with one `key` have one `coarse` key. */
  ghost predicate Refines<T>(key: T -> Key, coarse: T -> Key, s: seq<T>) {
    forall x, y :: x in s && y in s && key(x) == key(y) ==> coarse(x) == coarse(y)
  }

  /** Sorting by a coarser key leaves the members of a finer key in their order. */
  lemma CoarseKeeps<T>(key: T -> Key, coarse: T -> Key, s: seq<T>, k: Key)
    requires Refines(key, coarse, s)
    ensures WithKey(key, k, SortBy(coarse, s)) == WithKey(key, k, s)
  {
    var t := SortBy(coarse, s);
    forall x | x in t ensures x in s { SameMembers(t, s, x); }
    if exists x :: x in s && key(x) == k {
      var x :| x in s && key(x) == k;
      var c := coarse(x);
      forall y | y in t && key(y) == k ensures coarse(y) == c {
        assert y in s;
      }
      WithKeyOfWithKey(key, k, coarse, c, s);
      WithKeyOfWithKey(key, k, coarse, c, t);
      SortStable(coarse, s, c);
    } else {
      NoneWithKey(key, k, s);
      NoneWithKey(key, k, t);
    }
  }

  lemma {:induction false} NoneWithKey<T>(key: T -> Key, k: Key, s: seq<T>)
    requires forall x :: x in s ==> key(x) != k
    ensures WithKey(key, k, s) == []
  {
    if s != [] {
      NoneWithKey(key, k, s[1..]);
    }
  }

  lemma {:induction false} WithKeyOfWithKey<T>(key: T -> Key, k: Key, coarse: T -> Key, c: Key, s: seq<T>)
    requires forall x :: x in s && key(x) == k ==> coarse(x) == c
    ensures WithKey(key, k, WithKey(coarse, c, s)) == WithKey(key, k, s)
  {
    if s != [] {
      var rest := WithKey(coarse, c, s[1..]);
      assert s[0] in s;
      WithKeyOfWithKey(key, k, coarse, c, s[1..]);
      WithKeyCons(key, k, s[0], rest);
      assert WithKey(coarse, c, s) == if coarse(s[0]) == c then [s[0]] + rest else rest;
    }
  }

  lemma {:induction false} WithKeyKeepsSorted<T>(key: T -> Key, coarse: T -> Key, c: Key, s: seq<T>)
    requires Sorted(key, s)
    ensures Sorted(key, WithKey(coarse, c, s))
  {
    if s != [] {
      WithKeyKeepsSorted(key, coarse, c, s[1..]);
      forall x | x in WithKey(coarse, c, s[1..]) ensures LexLe(key(s[0]), key(x)) {
        WithKeyOnly(coarse, c, s[1..], x);
        var i :| 0 <= i < |s[1..]| && s[1..][i] == x;
        assert s[i + 1] == x;
      }
    }
  }

  /** Two members with one key stand in the list of that key's members in the same order. */
  lemma {:induction false} WithKeyInOrder<T>(coarse: T -> Key, s: seq<T>, i: int, j: int) returns (p: nat, q: nat)
    requires 0 <= i < j < |s| && coarse(s[i]) == coarse(s[j])
    ensures var w := WithKey(coarse, coarse(s[i]), s); p < q < |w| && w[p] == s[i] && w[q] == s[j]
  {
    if i > 0 {
      p, q := WithKeyInOrder(coarse, s[1..], i - 1, j - 1);
      if coarse(s[0]) == coarse(s[i]) {
        p, q := p + 1, q + 1;
      }
    } else {
      WithKeyMember(coarse, s[1..], j - 1);
      var w := WithKey(coarse, coarse(s[0]), s[1..]);
      var m :| 0 <= m < |w| && w[m] == s[j];
      p, q := 0, m + 1;
    }
  }

  /** A stable sort by a coarse key keeps an earlier sort by a fine one, where the coarse key does not decide. */
  lemma SortedWithin<T>(coarse: T -> Key, fine: T -> Key, s: seq<T>, i: int, j: int)
    requires 0 <= i < j < |SortBy(coarse, SortBy(fine, s))|
    requires var r := SortBy(coarse, SortBy(fine, s)); coarse(r[i]) == coarse(r[j])
    ensures var r := SortBy(coarse, SortBy(fine, s)); LexLe(fine(r[i]), fine(r[j]))
  {
    var t := SortBy(fine, s);
    var r := SortBy(coarse, t);
    var c := coarse(r[i]);
    SortSorted(fine, s);
    SortStable(coarse, t, c);
    WithKeyKeepsSorted(fine, coarse, c, t);
    var p, q := WithKeyInOrder(coarse, r, i, j);
  }

  /** The order of `both` is that of the coarse key, then that of the fine one. */
  ghost predicate Combines<T(!new)>(coarse: T -> Key, fine: T -> Key, both: T -> Key) {
    forall x, y :: LexLe(both(x), both(y)) <==>
      if coarse(x) == coarse(y) then LexLe(fine(x), fine(y)) else LexLe(coarse(x), coarse(y))
  }

  lemma CombinedSorted<T(!new)>(coarse: T -> Key, fine: T -> Key, both: T -> Key, r: seq<T>)
    requires Combines(coarse, fine, both) && Sorted(coarse, r)
    requires forall i, j :: 0 <= i < j < |r| && coarse(r[i]) == coarse(r[j]) ==> LexLe(fine(r[i]), fine(r[j]))
    ensures Sorted(both, r)
  {
  }

  lemma SortedByBoth<T(!new)>(coarse: T -> Key, fine: T -> Key, both: T -> Key, s: seq<T>)
    requires Combines(coarse, fine, both)
    ensures Sorted(both, SortBy(coarse, SortBy(fine, s)))
  {
    var r := SortBy(coarse, SortBy(fine, s));
    SortSorted(coarse, SortBy(fine, s));
    forall i, j | 0 <= i < j < |r| && coarse(r[i]) == coarse(r[j]) ensures LexLe(fine(r[i]), fine(r[j])) {
      SortedWithin(coarse, fine, s, i, j);
    }
    CombinedSorted(coarse, fine, both, r);
  }

  /** Sorting by the fine key and then by the coarse one is sorting by both. */
  lemma SortTwice<T(!new)>(coarse: T -> Key, fine: T -> Key, both: T -> Key, s: seq<T>)
    requires Combines(coarse, fine, both) && Refines(both, coarse, s) && Refines(both, fine, s)
    ensures SortBy(coarse, SortBy(fine, s)) == SortBy(both, s)
  {
    var t := SortBy(fine, s);
    forall x ensures x in t <==> x in s { SameMembers(t, s, x); }
    SortedByBoth(coarse, fine, both, s);
    forall k ensures WithKey(both, k, SortBy(coarse, t)) == WithKey(both, k, s) {
      CoarseKeeps(both, coarse, t, k);
      CoarseKeeps(both, fine, s, k);
    }
    SortCharacterised(both, s, SortBy(coarse, t));
  }

  ghost predicate InjectiveOn<T>(key: T -> Key, s: seq<T>) {
    forall x, y :: x in s && y in s && key(x) == key(y) ==> x == y
  }

  /** When members with equal keys are equal, a sorted sequence is determined by its multiset. */
  lemma {:induction false} SortedUnique<T>(key: T -> Key, a: seq<T>, b: seq<T>)
    requires Sorted(key, a) && Sorted(key, b)
    requires multiset(a) == multiset(b)
    requires InjectiveOn(key, a)
    ensures a == b
  {
    SameLength(a, b);
    if a != [] {
      SameMembers(a, b, a[0]);
      SameMembers(a, b, b[0]);
      HeadLeast(key, a, b[0]);
      HeadLeast(key, b, a[0]);
      LexAntisymmetric(key(a[0]), key(b[0]));
      SplitHead(a);
      SplitHead(b);
      CancelOne(multiset(a[1..]), multiset(b[1..]), a[0]);
      SortedUnique(key, a[1..], b[1..]);
    }
  }

  /** Sorting forgets the order of its input, when members with equal keys are equal. */
  lemma SortForgetsOrder<T>(key: T -> Key, a: seq<T>, b: seq<T>)
    requires multiset(a) == multiset(b)
    requires InjectiveOn(key, a)
    ensures SortBy(key, a) == SortBy(key, b)
  {
    SortSorted(key, a);
    SortSorted(key, b);
    forall x | x in SortBy(key, a) ensures x in a {
      SameMembers(SortBy(key, a), a, x);
    }
    SortedUnique(key, SortBy(key, a), SortBy(key, b));
  }

  // ---------- maps and permutations ----------

  ghost predicate Pairwise<T>(r: (T, T) -> bool, s: seq<T>) {
    forall i, j :: 0 <= i < j < |s| ==> r(s[i], s[j])
  }

  /** A symmetric relation between any two positions survives reordering. */
  lemma {:induction false} PairwisePermute<T>(r: (T, T) -> bool, a: seq<T>, b: seq<T>)
    requires Pairwise(r, a) && multiset(a) == multiset(b)
    requires forall x, y :: x in a && y in a && r(x, y) ==> r(y, x)
    ensures Pairwise(r, b)
  {
    SameLength(a, b);
    if b != [] {
      SameMembers(a, b, b[0]);
      var i :| 0 <= i < |a| && a[i] == b[0];
      var rest := a[..i] + a[i + 1..];
      RemoveAt(a, i);
      SplitHead(b);
      CancelOne(multiset(rest), multiset(b[1..]), b[0]);
      forall x | x in rest ensures x in a {
        assert x in multiset(rest);
      }
      PairwisePermute(r, rest, b[1..]);
      forall j | 0 < j < |b| ensures r(b[0], b[j]) {
        assert b[j] == b[1..][j - 1];
        SameMembers(rest, b[1..], b[j]);
        var k :| 0 <= k < |rest| && rest[k] == b[j];
        PairOfTwo(r, a, i, if k < i then k else k + 1);
      }
    }
  }

  lemma PairOfTwo<T>(r: (T, T) -> bool, a: seq<T>, i: int, m: int)
    requires Pairwise(r, a) && 0 <= i < |a| && 0 <= m < |a| && i != m
    requires forall x, y :: x in a && y in a && r(x, y) ==> r(y, x)
    ensures r(a[i], a[m])
  {
    assert if m < i then r(a[m], a[i]) else r(a[i], a[m]);
  }

  function Map<A, B>(f: A -> B, s: seq<A>): (r: seq<B>)
    ensures |r| == |s|
    ensures forall i :: 0 <= i < |s| ==> r[i] == f(s[i])
  {
    seq(|s|, i requires 0 <= i < |s| => f(s[i]))
  }

  /** Sorting commutes with a map that keeps the keys. */
  lemma {:induction false} SortOfMap<A, B>(ka: A -> Key, kb: B -> Key, f: A -> B, s: seq<A>)
    requires forall x :: x in s ==> kb(f(x)) == ka(x)
    ensures SortBy(kb, Map(f, s)) == Map(f, SortBy(ka, s))
  {
    if s != [] {
      var r := SortBy(ka, s[1..]);
      SortOfMap(ka, kb, f, s[1..]);
      assert Map(f, s)[1..] == Map(f, s[1..]);
      forall x | x in r ensures x in s { assert x in multiset(r); }
      InsertOfMap(ka, kb, f, s[0], r);
    }
  }

  lemma MapCons<A, B>(f: A -> B, x: A, s: seq<A>)
    ensures Map(f, [x] + s) == [f(x)] + Map(f, s)
    ensures Map(f, [x] + s)[1..] == Map(f, s)
  {
    var all := Map(f, [x] + s);
    assert ([x] + s)[1..] == s;
    forall i | 0 <= i < |s| ensures all[1..][i] == f(s[i]) {
      assert all[i + 1] == f(([x] + s)[i + 1]);
    }
    assert all[0] == f(x) && all == [all[0]] + all[1..];
  }

  lemma {:induction false} InsertOfMap<A, B>(ka: A -> Key, kb: B -> Key, f: A -> B, x: A, s: seq<A>)
    requires kb(f(x)) == ka(x) && forall y :: y in s ==> kb(f(y)) == ka(y)
    ensures Insert(kb, f(x), Map(f, s)) == Map(f, Insert(ka, x, s))
  {
    if s == [] || LexLe(ka(x), ka(s[0])) {
      assert s != [] ==> s[0] in s;
      MapCons(f, x, s);
    } else {
      InsertOfMap(ka, kb, f, x, s[1..]);
      MapCons(f, s[0], s[1..]);
      MapCons(f, s[0], Insert(ka, x, s[1..]));
      assert s[0] in s && [s[0]] + s[1..] == s;
    }
  }

  /** A map sends permutations to permutations. */
  lemma {:induction false} MapPermutes<A, B>(f: A -> B, a: seq<A>, b: seq<A>)
    requires multiset(a) == multiset(b)
    ensures multiset(Map(f, a)) == multiset(Map(f, b))
  {
    SameLength(a, b);
    if a != [] {
      SameMembers(a, b, a[0]);
      var i :| 0 <= i < |b| && b[i] == a[0];
      var b' := b[..i] + b[i + 1..];
      RemoveAt(b, i);
      SplitHead(a);
      CancelOne(multiset(a[1..]), multiset(b'), a[0]);
      MapPermutes(f, a[1..], b');
      RemoveAt(Map(f, b), i);
      assert Map(f, b)[..i] + Map(f, b)[i + 1..] == Map(f, b');
      SplitHead(Map(f, a));
      assert Map(f, a)[1..] == Map(f, a[1..]);
    }
  }

  /** When the images are permutations of each other, so are the originals, up to what `f` identifies. */
  lemma {:induction false} PullBack<A, B>(f: A -> B, a: seq<A>, b: seq<A>) returns (b': seq<A>)
    requires multiset(Map(f, a)) == multiset(Map(f, b))
    ensures multiset(b') == multiset(b) && |b'| == |a|
    ensures forall i :: 0 <= i < |a| ==> f(b'[i]) == f(a[i])
  {
    var ma, mb := Map(f, a), Map(f, b);
    SameLength(ma, mb);
    if a == [] {
      return [];
    }
    SameMembers(ma, mb, ma[0]);
    var i :| 0 <= i < |mb| && mb[i] == ma[0];
    var rest := b[..i] + b[i + 1..];
    RemoveAt(b, i);
    RemoveAt(mb, i);
    assert mb[..i] + mb[i + 1..] == Map(f, rest);
    SplitHead(ma);
    assert ma[1..] == Map(f, a[1..]);
    CancelOne(multiset(Map(f, a[1..])), multiset(Map(f, rest)), ma[0]);
    var tail := PullBack(f, a[1..], rest);
    b' := [b[i]] + tail;
  }
}
