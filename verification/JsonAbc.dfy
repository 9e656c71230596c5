/** `sortObj` as a function on JSON values: what it keeps, and when it is a canonical form. */
module JsonAbc {
  import opened Decimal
  import opened Json
  import opened Sorting
  import opened Texts

  /** `String.prototype.toLowerCase`, whatever its tables say. */
  type Lowering = string -> string

  // ---------- the three sort orders of the code ----------

  /** `String(v)`, the text by which a comparator-less `Array.prototype.sort` compares. */
  function ToText(x: Json): string {
    match x
    case Null => "null"
    case Bool(b) => if b then "true" else "false"
    case Num(tok) => tok
    case Str(s) => s
    case Arr(xs) => if xs == [] then "" else JoinText(xs)
    case Obj(_) => "[object Object]"
  }

  /** `Array.prototype.join(',')`: null elements leave no text. */
  function JoinText(xs: seq<Json>): string
    requires xs != []
  {
    var head := if xs[0].Null? then "" else ToText(xs[0]);
    if |xs| == 1 then head else head + "," + JoinText(xs[1..])
  }

  function DefaultOrder(x: Json): Key {
    Codes(ToText(x))
  }

  function TextOrder(x: Json): Key {
    Codes(Stringify(x))
  }

  /** The comparator for keys. */
  function LowerOrder(lower: Lowering): Member -> Key {
    (m: Member) => Codes(lower(m.key))
  }

  /** Where a key of a result stands: indices by number, then the others in the order of the comparator. */
  function SortKey(lower: Lowering, key: string): Key {
    if IsIndex(key) then [0, Value(key)] else [1] + Codes(lower(key))
  }

  function KeyOrder(lower: Lowering): Member -> Key {
    (m: Member) => SortKey(lower, m.key)
  }

  /** Two keys tie exactly if neither is an index and they agree after lower-casing. */
  lemma SortKeyTies(lower: Lowering, k: string, l: string)
    requires k != l
    ensures SortKey(lower, k) == SortKey(lower, l) <==> !IsIndex(k) && !IsIndex(l) && lower(k) == lower(l)
  {
    var a, b := SortKey(lower, k), SortKey(lower, l);
    if a == b {
      assert a[0] == b[0];
      if IsIndex(k) {
        SameRank(k, l);
      } else {
        assert a[1..] == Codes(lower(k)) && b[1..] == Codes(lower(l));
        CodesInjective(lower(k), lower(l));
      }
    }
  }

  lemma LexHead(a: int, x: Key, y: Key)
    ensures LexLe([a] + x, [a] + y) <==> LexLe(x, y)
  {
    assert ([a] + x)[1..] == x && ([a] + y)[1..] == y;
  }

  lemma {:induction false} LexReflexive(x: Key)
    ensures LexLe(x, x)
  {
    LexTotal(x, x);
  }

  lemma KeyOrderCombines(lower: Lowering, k: string, l: string)
    ensures LexLe(SortKey(lower, k), SortKey(lower, l)) <==>
      if IndexRank(k) == IndexRank(l) then LexLe(Codes(lower(k)), Codes(lower(l)))
      else LexLe(IndexRank(k), IndexRank(l))
  {
    if !IsIndex(k) && !IsIndex(l) {
      LexHead(1, Codes(lower(k)), Codes(lower(l)));
    } else if IsIndex(k) && IndexRank(k) == IndexRank(l) {
      SameRank(k, l);
      LexReflexive(SortKey(lower, k));
      LexReflexive(Codes(lower(k)));
    }
  }

  lemma SameSortKey(lower: Lowering, k: string, l: string)
    requires SortKey(lower, k) == SortKey(lower, l)
    ensures IndexRank(k) == IndexRank(l) && lower(k) == lower(l)
  {
    if k != l {
      SortKeyTies(lower, k, l);
    }
  }

  lemma OrdersCombine(lower: Lowering)
    ensures Combines(IndexOrder, LowerOrder(lower), KeyOrder(lower))
  {
    var fine, both := LowerOrder(lower), KeyOrder(lower);
    forall x, y ensures LexLe(both(x), both(y)) <==>
      if IndexOrder(x) == IndexOrder(y) then LexLe(fine(x), fine(y)) else LexLe(IndexOrder(x), IndexOrder(y))
    {
      KeyOrderCombines(lower, x.key, y.key);
    }
  }

  /** Adding the keys in the order of the comparator and enumerating them is one sort. */
  lemma EnumeratedSort(lower: Lowering, ms: seq<Member>)
    ensures SortBy(IndexOrder, SortBy(LowerOrder(lower), ms)) == SortBy(KeyOrder(lower), ms)
  {
    var fine, both := LowerOrder(lower), KeyOrder(lower);
    OrdersCombine(lower);
    forall x, y | x in ms && y in ms && both(x) == both(y)
      ensures IndexOrder(x) == IndexOrder(y) && fine(x) == fine(y)
    {
      SameSortKey(lower, x.key, y.key);
    }
    SortTwice(IndexOrder, fine, both, ms);
  }

  // ---------- sortObj ----------

  /** The value `sortObj(x)` returns. */
  function SortObj(lower: Lowering, x: Json): Json
    decreases x
  {
    match x
    case Arr(xs) =>
      var ys := SortBy(DefaultOrder, xs);
      var zs := seq(|ys|, i requires 0 <= i < |ys| => (SameMembers(ys, xs, ys[i]); SortObj(lower, ys[i])));
      Arr(SortBy(TextOrder, zs))
    case Obj(ms) =>
      var ns := SortBy(IndexOrder, SortBy(LowerOrder(lower), ms));
      Obj(seq(|ns|, i requires 0 <= i < |ns| =>
        (SameMembers(ns, ms, ns[i]); Member(ns[i].key, SortObj(lower, ns[i].value)))))
    case _ => x
  }

  /** The value the argument itself has after `sortObj(x)`: arrays are sorted in place, objects are not. */
  function After(lower: Lowering, x: Json): Json
    decreases x
  {
    match x
    case Arr(_) => SortObj(lower, x)
    case Obj(ms) => Obj(seq(|ms|, i requires 0 <= i < |ms| => Member(ms[i].key, After(lower, ms[i].value))))
    case _ => x
  }

  function Canon(lower: Lowering): Json -> Json {
    (x: Json) => SortObj(lower, x)
  }

  function CanonMember(lower: Lowering): Member -> Member {
    (m: Member) => Member(m.key, SortObj(lower, m.value))
  }

  lemma SortObjArr(lower: Lowering, xs: seq<Json>)
    ensures SortObj(lower, Arr(xs)) == Arr(SortBy(TextOrder, Map(Canon(lower), SortBy(DefaultOrder, xs))))
  {
    var ys := SortBy(DefaultOrder, xs);
    assert seq(|ys|, i requires 0 <= i < |ys| => (SameMembers(ys, xs, ys[i]); SortObj(lower, ys[i])))
        == Map(Canon(lower), ys);
  }

  lemma TextOrderInjective(s: seq<Json>)
    ensures InjectiveOn(TextOrder, s)
  {
    forall x, y | x in s && y in s && TextOrder(x) == TextOrder(y) ensures x == y {
      CodesInjective(Stringify(x), Stringify(y));
      StringifyInjective(x, y);
    }
  }

  /** The first sort of an array has no effect on the result. */
  lemma ArrayResult(lower: Lowering, xs: seq<Json>)
    ensures SortObj(lower, Arr(xs)) == Arr(SortBy(TextOrder, Map(Canon(lower), xs)))
  {
    SortObjArr(lower, xs);
    var ys := SortBy(DefaultOrder, xs);
    MapPermutes(Canon(lower), ys, xs);
    TextOrderInjective(Map(Canon(lower), ys));
    SortForgetsOrder(TextOrder, Map(Canon(lower), ys), Map(Canon(lower), xs));
  }

  lemma SortObjObj(lower: Lowering, ms: seq<Member>)
    ensures SortObj(lower, Obj(ms)) == Obj(Map(CanonMember(lower), SortBy(IndexOrder, SortBy(LowerOrder(lower), ms))))
  {
    var ns := SortBy(IndexOrder, SortBy(LowerOrder(lower), ms));
    assert seq(|ns|, i requires 0 <= i < |ns| =>
        (SameMembers(ns, ms, ns[i]); Member(ns[i].key, SortObj(lower, ns[i].value)))) == Map(CanonMember(lower), ns);
  }

  /** Sorting the members first or canonicalising their values first is the same. */
  lemma ObjectResult(lower: Lowering, ms: seq<Member>)
    ensures SortObj(lower, Obj(ms)) == Obj(Map(CanonMember(lower), SortBy(KeyOrder(lower), ms)))
    ensures SortObj(lower, Obj(ms)) == Obj(SortBy(KeyOrder(lower), Map(CanonMember(lower), ms)))
  {
    SortObjObj(lower, ms);
    EnumeratedSort(lower, ms);
    SortOfMap(KeyOrder(lower), KeyOrder(lower), CanonMember(lower), ms);
  }

  // ---------- equality up to order ----------

  /** Equal up to the order of object members and of array elements, at every depth. */
  ghost predicate Equivalent(x: Json, y: Json)
    decreases x
  {
    match x
    case Arr(xs) => y.Arr? && exists ys: seq<Json> :: multiset(ys) == multiset(y.elems) && AllEquivalent(xs, ys)
    case Obj(ms) =>
      y.Obj? && exists ns: seq<Member> :: multiset(ns) == multiset(y.members) && AllMembersEquivalent(ms, ns)
    case _ => x == y
  }

  ghost predicate AllEquivalent(xs: seq<Json>, ys: seq<Json>)
    decreases xs
  {
    |xs| == |ys| && forall i :: 0 <= i < |xs| ==> Equivalent(xs[i], ys[i])
  }

  ghost predicate AllMembersEquivalent(ms: seq<Member>, ns: seq<Member>)
    decreases ms
  {
    |ms| == |ns| && forall i :: 0 <= i < |ms| ==> ms[i].key == ns[i].key && Equivalent(ms[i].value, ns[i].value)
  }

  /** No object holds two keys that tie: by `SortKeyTies`, two that are no indices and agree after lower-casing. */
  ghost predicate CaseDistinct(lower: Lowering, x: Json)
    decreases x
  {
    match x
    case Arr(xs) => forall i :: 0 <= i < |xs| ==> CaseDistinct(lower, xs[i])
    case Obj(ms) =>
      && (forall i, j :: 0 <= i < j < |ms| ==> SortKey(lower, ms[i].key) != SortKey(lower, ms[j].key))
      && (forall i :: 0 <= i < |ms| ==> CaseDistinct(lower, ms[i].value))
    case _ => true
  }

  /** Equal results come from equivalent inputs, with no condition at all. */
  lemma {:induction false} SameResultEquivalent(lower: Lowering, x: Json, y: Json)
    requires SortObj(lower, x) == SortObj(lower, y)
    ensures Equivalent(x, y)
    decreases x
  {
    match x
    case Arr(xs) =>
      var ys := y.elems;
      var f := Canon(lower);
      ArrayResult(lower, xs);
      ArrayResult(lower, ys);
      assert multiset(Map(f, xs)) == multiset(SortBy(TextOrder, Map(f, xs)));
      assert multiset(Map(f, ys)) == multiset(SortBy(TextOrder, Map(f, ys)));
      var ys' := PullBack(f, xs, ys);
      forall i | 0 <= i < |xs| ensures Equivalent(xs[i], ys'[i]) {
        assert f(ys'[i]) == f(xs[i]);
        SameResultEquivalent(lower, xs[i], ys'[i]);
      }
      assert AllEquivalent(xs, ys');
    case Obj(ms) =>
      var ns := y.members;
      var f := CanonMember(lower);
      ObjectResult(lower, ms);
      ObjectResult(lower, ns);
      assert multiset(Map(f, ms)) == multiset(SortBy(KeyOrder(lower), Map(f, ms)));
      assert multiset(Map(f, ns)) == multiset(SortBy(KeyOrder(lower), Map(f, ns)));
      var ns' := PullBack(f, ms, ns);
      forall i | 0 <= i < |ms| ensures ms[i].key == ns'[i].key && Equivalent(ms[i].value, ns'[i].value) {
        assert f(ns'[i]) == f(ms[i]);
        SameResultEquivalent(lower, ms[i].value, ns'[i].value);
      }
      assert AllMembersEquivalent(ms, ns');
    case _ =>
  }

  lemma CaseDistinctInjective(lower: Lowering, ms: seq<Member>, s: seq<Member>)
    requires CaseDistinct(lower, Obj(ms))
    requires multiset(s) == multiset(Map(CanonMember(lower), ms))
    ensures InjectiveOn(KeyOrder(lower), s)
  {
    var f := CanonMember(lower);
    forall m, n | m in s && n in s && KeyOrder(lower)(m) == KeyOrder(lower)(n) ensures m == n {
      SameMembers(s, Map(f, ms), m);
      SameMembers(s, Map(f, ms), n);
      var i :| 0 <= i < |ms| && Map(f, ms)[i] == m;
      var j :| 0 <= j < |ms| && Map(f, ms)[j] == n;
      assert SortKey(lower, ms[i].key) == SortKey(lower, ms[j].key);
      assert i == j;
    }
  }

  /** Equivalent inputs give equal results, when keys stay distinct after lower-casing. */
  lemma {:induction false} EquivalentSameResult(lower: Lowering, x: Json, y: Json)
    requires CaseDistinct(lower, x)
    requires Equivalent(x, y)
    ensures SortObj(lower, x) == SortObj(lower, y)
    decreases x
  {
    match x
    case Arr(xs) =>
      var ys: seq<Json> :| multiset(ys) == multiset(y.elems) && AllEquivalent(xs, ys);
      var f := Canon(lower);
      forall i | 0 <= i < |xs| ensures f(xs[i]) == f(ys[i]) {
        EquivalentSameResult(lower, xs[i], ys[i]);
      }
      assert Map(f, xs) == Map(f, ys);
      MapPermutes(f, ys, y.elems);
      TextOrderInjective(Map(f, xs));
      SortForgetsOrder(TextOrder, Map(f, xs), Map(f, y.elems));
      ArrayResult(lower, xs);
      ArrayResult(lower, y.elems);
    case Obj(ms) =>
      var ns: seq<Member> :| multiset(ns) == multiset(y.members) && AllMembersEquivalent(ms, ns);
      var f := CanonMember(lower);
      forall i | 0 <= i < |ms| ensures f(ms[i]) == f(ns[i]) {
        EquivalentSameResult(lower, ms[i].value, ns[i].value);
      }
      assert Map(f, ms) == Map(f, ns);
      MapPermutes(f, ns, y.members);
      CaseDistinctInjective(lower, ms, Map(f, ms));
      SortForgetsOrder(KeyOrder(lower), Map(f, ms), Map(f, y.members));
      ObjectResult(lower, ms);
      ObjectResult(lower, y.members);
    case _ =>
  }

  /** `sortObj` is a complete canonical form on values whose keys stay distinct after lower-casing. */
  lemma CanonicalForm(lower: Lowering, x: Json, y: Json)
    requires CaseDistinct(lower, x)
    ensures SortObj(lower, x) == SortObj(lower, y) <==> Equivalent(x, y)
  {
    if SortObj(lower, x) == SortObj(lower, y) {
      SameResultEquivalent(lower, x, y);
    }
    if Equivalent(x, y) {
      EquivalentSameResult(lower, x, y);
    }
  }

  // ---------- running it again, running it on what it left behind ----------

  /** A sorted image under `f` is a fixpoint of "map by `f`, then sort", when `f` is idempotent. */
  lemma SortedImageFixed<T>(key: T -> Key, f: T -> T, xs: seq<T>)
    requires forall x :: x in xs ==> f(f(x)) == f(x)
    ensures SortBy(key, Map(f, SortBy(key, Map(f, xs)))) == SortBy(key, Map(f, xs))
  {
    var s := SortBy(key, Map(f, xs));
    forall i | 0 <= i < |s| ensures f(s[i]) == s[i] {
      SameMembers(s, Map(f, xs), s[i]);
      var j :| 0 <= j < |xs| && Map(f, xs)[j] == s[i];
      assert xs[j] in xs;
    }
    assert Map(f, s) == s;
    SortSorted(key, Map(f, xs));
    SortOfSorted(key, s);
  }

  /** Sorting a sorted value changes nothing; keys that collide after lower-casing do no harm. */
  lemma {:induction false} Idempotent(lower: Lowering, x: Json)
    ensures SortObj(lower, SortObj(lower, x)) == SortObj(lower, x)
    decreases x
  {
    match x
    case Arr(xs) =>
      var f := Canon(lower);
      forall y | y in xs ensures f(f(y)) == f(y) { Idempotent(lower, y); }
      SortedImageFixed(TextOrder, f, xs);
      ArrayResult(lower, xs);
      ArrayResult(lower, SortBy(TextOrder, Map(f, xs)));
    case Obj(ms) =>
      var f := CanonMember(lower);
      forall m | m in ms ensures f(f(m)) == f(m) { Idempotent(lower, m.value); }
      SortedImageFixed(KeyOrder(lower), f, ms);
      ObjectResult(lower, ms);
      ObjectResult(lower, SortBy(KeyOrder(lower), Map(f, ms)));
    case _ =>
  }

  /** The mutation left behind in the argument is invisible to the next call. */
  lemma {:induction false} AfterSameResult(lower: Lowering, x: Json)
    ensures SortObj(lower, After(lower, x)) == SortObj(lower, x)
    decreases x
  {
    match x
    case Arr(_) =>
      Idempotent(lower, x);
    case Obj(ms) =>
      var f := CanonMember(lower);
      var ns := After(lower, x).members;
      forall i | 0 <= i < |ms| ensures f(ns[i]) == f(ms[i]) {
        AfterSameResult(lower, ms[i].value);
      }
      assert Map(f, ns) == Map(f, ms);
      ObjectResult(lower, ms);
      ObjectResult(lower, ns);
    case _ =>
  }

  /** Neither the result nor the mutated argument gains or loses anything, at any depth. */
  lemma NothingLost(lower: Lowering, x: Json)
    ensures Equivalent(x, SortObj(lower, x))
    ensures Equivalent(x, After(lower, x))
  {
    Idempotent(lower, x);
    SameResultEquivalent(lower, x, SortObj(lower, x));
    AfterSameResult(lower, x);
    SameResultEquivalent(lower, x, After(lower, x));
  }

  lemma DistinctKeysPermute(a: seq<Member>, b: seq<Member>)
    requires DistinctKeys(a) && multiset(a) == multiset(b)
    ensures DistinctKeys(b)
  {
    var differ := (m: Member, n: Member) => m.key != n.key;
    assert Pairwise(differ, a);
    PairwisePermute(differ, a, b);
    forall i, j | 0 <= i < j < |b| ensures b[i].key != b[j].key { assert differ(b[i], b[j]); }
  }

  lemma SortedImage<A, B>(key: B -> Key, f: A -> B, xs: seq<A>, i: int) returns (j: int)
    requires 0 <= i < |SortBy(key, Map(f, xs))|
    ensures 0 <= j < |xs| && SortBy(key, Map(f, xs))[i] == f(xs[j])
  {
    var s := SortBy(key, Map(f, xs));
    SameMembers(s, Map(f, xs), s[i]);
    j :| 0 <= j < |xs| && Map(f, xs)[j] == s[i];
  }

  lemma KeyOrderEnumerates(lower: Lowering, ms: seq<Member>)
    requires Sorted(KeyOrder(lower), ms)
    ensures Sorted(IndexOrder, ms)
  {
    forall i, j | 0 <= i < j < |ms| ensures LexLe(IndexOrder(ms[i]), IndexOrder(ms[j])) {
      assert LexLe(KeyOrder(lower)(ms[i]), KeyOrder(lower)(ms[j]));
      KeyOrderCombines(lower, ms[i].key, ms[j].key);
      LexReflexive(IndexOrder(ms[i]));
    }
  }

  lemma SortedMembersWellFormed(lower: Lowering, ms: seq<Member>, ns: seq<Member>)
    requires DistinctKeys(ms) && ns == SortBy(KeyOrder(lower), Map(CanonMember(lower), ms))
    requires forall i :: 0 <= i < |ns| ==> WellFormed(ns[i].value)
    ensures WellFormed(Obj(ns))
  {
    DistinctKeysPermute(Map(CanonMember(lower), ms), ns);
    SortSorted(KeyOrder(lower), Map(CanonMember(lower), ms));
    KeyOrderEnumerates(lower, ns);
  }

  /** The result is a JavaScript value, with its keys in the order in which they are enumerated. */
  lemma {:induction false} SortKeepsWellFormed(lower: Lowering, x: Json)
    requires WellFormed(x)
    ensures WellFormed(SortObj(lower, x))
    decreases x
  {
    match x
    case Arr(xs) =>
      var ys := SortBy(TextOrder, Map(Canon(lower), xs));
      ArrayResult(lower, xs);
      forall i | 0 <= i < |ys| ensures WellFormed(ys[i]) {
        var j := SortedImage(TextOrder, Canon(lower), xs, i);
        SortKeepsWellFormed(lower, xs[j]);
      }
    case Obj(ms) =>
      var ns := SortBy(KeyOrder(lower), Map(CanonMember(lower), ms));
      ObjectResult(lower, ms);
      forall i | 0 <= i < |ns| ensures WellFormed(ns[i].value) {
        var j := SortedImage(KeyOrder(lower), CanonMember(lower), ms, i);
        SortKeepsWellFormed(lower, ms[j].value);
      }
      SortedMembersWellFormed(lower, ms, ns);
    case _ =>
  }

  // ---------- the order of a result ----------

  /** Keys ascend: array indices first, by number, then the other keys, by their lower-cased text. */
  lemma KeysAscend(lower: Lowering, ms: seq<Member>, i: int, j: int)
    requires 0 <= i < j < |SortObj(lower, Obj(ms)).members|
    ensures var k, l := SortObj(lower, Obj(ms)).members[i].key, SortObj(lower, Obj(ms)).members[j].key;
      && (IsIndex(l) ==> IsIndex(k) && Value(k) <= Value(l))
      && (!IsIndex(k) && !IsIndex(l) ==> TextLe(lower(k), lower(l)))
  {
    var ns := SortBy(KeyOrder(lower), Map(CanonMember(lower), ms));
    ObjectResult(lower, ms);
    SortSorted(KeyOrder(lower), Map(CanonMember(lower), ms));
    var k, l := ns[i].key, ns[j].key;
    assert LexLe(KeyOrder(lower)(ns[i]), KeyOrder(lower)(ns[j]));
    assert LexLe(SortKey(lower, k), SortKey(lower, l));
    SortKeysAscend(lower, k, l);
  }

  lemma SortKeysAscend(lower: Lowering, k: string, l: string)
    requires LexLe(SortKey(lower, k), SortKey(lower, l))
    ensures IsIndex(l) ==> IsIndex(k) && Value(k) <= Value(l)
    ensures !IsIndex(k) && !IsIndex(l) ==> TextLe(lower(k), lower(l))
  {
    var a, b := SortKey(lower, k), SortKey(lower, l);
    if !IsIndex(k) && !IsIndex(l) {
      LexHead(1, Codes(lower(k)), Codes(lower(l)));
      CodesAscend(lower(k), lower(l));
    } else if IsIndex(k) && IsIndex(l) {
      assert a[0] == 0 && b[0] == 0 && a[1..] == [Value(k)] && b[1..] == [Value(l)];
    }
  }

  /** The members whose keys are no indices and become `t` in lower case. */
  function Tied(lower: Lowering, t: string, ms: seq<Member>): seq<Member> {
    if ms == [] then []
    else (if !IsIndex(ms[0].key) && lower(ms[0].key) == t then [ms[0]] else []) + Tied(lower, t, ms[1..])
  }

  lemma {:induction false} TiedIsWithKey(lower: Lowering, t: string, ms: seq<Member>)
    ensures Tied(lower, t, ms) == WithKey(KeyOrder(lower), [1] + Codes(t), ms)
  {
    if ms != [] {
      TiedIsWithKey(lower, t, ms[1..]);
      var a := KeyOrder(lower)(ms[0]);
      if a == [1] + Codes(t) {
        assert a[0] == 1 && a[1..] == Codes(t) && a[1..] == Codes(lower(ms[0].key));
        CodesInjective(lower(ms[0].key), t);
      }
    }
  }

  /** Members that tie stay in the order they had. */
  lemma TiesStay(lower: Lowering, ms: seq<Member>, t: string)
    ensures Tied(lower, t, SortObj(lower, Obj(ms)).members) == Tied(lower, t, Map(CanonMember(lower), ms))
  {
    var ns := Map(CanonMember(lower), ms);
    ObjectResult(lower, ms);
    TiedIsWithKey(lower, t, ns);
    TiedIsWithKey(lower, t, SortBy(KeyOrder(lower), ns));
    SortStable(KeyOrder(lower), ns, [1] + Codes(t));
  }

  /** Elements ascend by their texts. */
  lemma ElementsAscend(lower: Lowering, xs: seq<Json>, i: int, j: int)
    requires 0 <= i < j < |SortObj(lower, Arr(xs)).elems|
    ensures var ys := SortObj(lower, Arr(xs)).elems; TextLe(Stringify(ys[i]), Stringify(ys[j]))
  {
    var ys := SortBy(TextOrder, Map(Canon(lower), xs));
    ArrayResult(lower, xs);
    SortSorted(TextOrder, Map(Canon(lower), xs));
    assert LexLe(TextOrder(ys[i]), TextOrder(ys[j]));
    CodesAscend(Stringify(ys[i]), Stringify(ys[j]));
  }

  // ---------- exactly when it is canonical ----------

  lemma {:induction false} EquivalentReflexive(x: Json)
    ensures Equivalent(x, x)
    decreases x
  {
    match x
    case Arr(xs) =>
      forall i | 0 <= i < |xs| ensures Equivalent(xs[i], xs[i]) { EquivalentReflexive(xs[i]); }
      assert AllEquivalent(xs, xs);
    case Obj(ms) =>
      forall i | 0 <= i < |ms| ensures Equivalent(ms[i].value, ms[i].value) { EquivalentReflexive(ms[i].value); }
      assert AllMembersEquivalent(ms, ms);
    case _ =>
  }

  lemma UpdateChangesMultiset<T>(s: seq<T>, i: int, v: T)
    requires 0 <= i < |s| && s[i] != v
    ensures multiset(s[i := v]) != multiset(s)
  {
    assert multiset(s[i := v])[v] == multiset(s)[v] + 1;
  }

  /** A stable sort shows the order of two members with one key. */
  lemma SwapShows<T>(key: T -> Key, a: seq<T>, p: T, b: seq<T>, q: T, c: seq<T>)
    requires key(p) == key(q) && p != q
    ensures SortBy(key, a + [p] + b + [q] + c) != SortBy(key, a + [q] + b + [p] + c)
  {
    var k := key(p);
    var s, t := a + [p] + b + [q] + c, a + [q] + b + [p] + c;
    assert s == a + ([p] + (b + [q] + c)) && t == a + ([q] + (b + [p] + c));
    WithKeyConcat(key, k, a, [p] + (b + [q] + c));
    WithKeyConcat(key, k, a, [q] + (b + [p] + c));
    WithKeyCons(key, k, p, b + [q] + c);
    WithKeyCons(key, k, q, b + [p] + c);
    assert WithKey(key, k, s)[|WithKey(key, k, a)|] == p;
    assert WithKey(key, k, t)[|WithKey(key, k, a)|] == q;
    SortStable(key, s, k);
    SortStable(key, t, k);
  }

  lemma MapOfUpdate<A, B>(f: A -> B, s: seq<A>, i: int, v: A)
    requires 0 <= i < |s|
    ensures Map(f, s[i := v]) == Map(f, s)[i := f(v)]
  {
  }

  lemma EquivalentUpdate(xs: seq<Json>, i: int, v: Json)
    requires 0 <= i < |xs| && Equivalent(xs[i], v)
    ensures Equivalent(Arr(xs), Arr(xs[i := v]))
  {
    var ys := xs[i := v];
    forall j | 0 <= j < |xs| ensures Equivalent(xs[j], ys[j]) { EquivalentReflexive(xs[j]); }
    assert AllEquivalent(xs, ys);
  }

  lemma EquivalentMemberUpdate(ms: seq<Member>, i: int, v: Json)
    requires 0 <= i < |ms| && Equivalent(ms[i].value, v)
    ensures Equivalent(Obj(ms), Obj(ms[i := Member(ms[i].key, v)]))
  {
    var ns := ms[i := Member(ms[i].key, v)];
    forall j | 0 <= j < |ms| ensures Equivalent(ms[j].value, ns[j].value) { EquivalentReflexive(ms[j].value); }
    assert AllMembersEquivalent(ms, ns);
  }

  lemma SortKeepsDifference<T>(key: T -> Key, s: seq<T>, i: int, v: T)
    requires 0 <= i < |s| && s[i] != v
    ensures SortBy(key, s) != SortBy(key, s[i := v])
  {
    UpdateChangesMultiset(s, i, v);
    assert multiset(SortBy(key, s)) != multiset(SortBy(key, s[i := v]));
  }

  lemma ReplacedElement(lower: Lowering, xs: seq<Json>, i: int, v: Json)
    requires 0 <= i < |xs| && SortObj(lower, xs[i]) != SortObj(lower, v)
    ensures SortObj(lower, Arr(xs)) != SortObj(lower, Arr(xs[i := v]))
  {
    var f := Canon(lower);
    MapOfUpdate(f, xs, i, v);
    SortKeepsDifference(TextOrder, Map(f, xs), i, f(v));
    ArrayResult(lower, xs);
    ArrayResult(lower, xs[i := v]);
  }

  lemma ReplacedValue(lower: Lowering, ms: seq<Member>, i: int, v: Json)
    requires 0 <= i < |ms| && SortObj(lower, ms[i].value) != SortObj(lower, v)
    ensures SortObj(lower, Obj(ms)) != SortObj(lower, Obj(ms[i := Member(ms[i].key, v)]))
  {
    var f := CanonMember(lower);
    var m := Member(ms[i].key, v);
    MapOfUpdate(f, ms, i, m);
    SortKeepsDifference(KeyOrder(lower), Map(f, ms), i, f(m));
    ObjectResult(lower, ms);
    ObjectResult(lower, ms[i := m]);
  }

  function Swap<T>(s: seq<T>, i: int, j: int): seq<T>
    requires 0 <= i < j < |s|
  {
    s[i := s[j]][j := s[i]]
  }

  lemma SwapEquivalent(ms: seq<Member>, i: int, j: int)
    requires 0 <= i < j < |ms|
    ensures Equivalent(Obj(ms), Obj(Swap(ms, i, j)))
  {
    forall k | 0 <= k < |ms| ensures Equivalent(ms[k].value, ms[k].value) { EquivalentReflexive(ms[k].value); }
    assert AllMembersEquivalent(ms, ms);
    assert multiset(ms) == multiset(Swap(ms, i, j));
  }

  lemma SwapSplit<T>(s: seq<T>, i: int, j: int)
    requires 0 <= i < j < |s|
    ensures s == s[..i] + [s[i]] + s[i + 1..j] + [s[j]] + s[j + 1..]
    ensures Swap(s, i, j) == s[..i] + [s[j]] + s[i + 1..j] + [s[i]] + s[j + 1..]
  {
  }

  lemma SortShowsSwap<T>(key: T -> Key, s: seq<T>, i: int, j: int)
    requires 0 <= i < j < |s| && key(s[i]) == key(s[j]) && s[i] != s[j]
    ensures SortBy(key, s) != SortBy(key, Swap(s, i, j))
  {
    var p, q := s[i], s[j];
    SwapSplit(s, i, j);
    SwapShows(key, s[..i], p, s[i + 1..j], q, s[j + 1..]);
  }

  lemma SwappedMembers(lower: Lowering, ms: seq<Member>, i: int, j: int)
    requires 0 <= i < j < |ms| && ms[i].key != ms[j].key && SortKey(lower, ms[i].key) == SortKey(lower, ms[j].key)
    ensures SortObj(lower, Obj(ms)) != SortObj(lower, Obj(Swap(ms, i, j)))
  {
    var f := CanonMember(lower);
    assert Map(f, Swap(ms, i, j)) == Swap(Map(f, ms), i, j);
    SortShowsSwap(KeyOrder(lower), Map(f, ms), i, j);
    ObjectResult(lower, ms);
    ObjectResult(lower, Swap(ms, i, j));
  }

  lemma SwapWellFormed(ms: seq<Member>, i: int, j: int)
    requires WellFormed(Obj(ms)) && 0 <= i < j < |ms| && IndexOrder(ms[i]) == IndexOrder(ms[j])
    ensures WellFormed(Obj(Swap(ms, i, j)))
  {
    var ns := Swap(ms, i, j);
    forall k, l | 0 <= k < l < |ns| ensures LexLe(IndexOrder(ns[k]), IndexOrder(ns[l])) && ns[k].key != ns[l].key {
      assert IndexOrder(ns[k]) == IndexOrder(ms[k]) && IndexOrder(ns[l]) == IndexOrder(ms[l]);
    }
  }

  lemma UpdateWellFormed(ms: seq<Member>, i: int, v: Json)
    requires WellFormed(Obj(ms)) && 0 <= i < |ms| && WellFormed(v)
    ensures WellFormed(Obj(ms[i := Member(ms[i].key, v)]))
  {
    var ns := ms[i := Member(ms[i].key, v)];
    forall k, l | 0 <= k < l < |ns| ensures LexLe(IndexOrder(ns[k]), IndexOrder(ns[l])) && ns[k].key != ns[l].key {
      assert IndexOrder(ns[k]) == IndexOrder(ms[k]) && IndexOrder(ns[l]) == IndexOrder(ms[l]);
    }
  }

  /** Wherever two keys collide, some reordering is not undone, and it is one that a JavaScript value can have. */
  lemma {:induction false} CollisionShows(lower: Lowering, x: Json) returns (y: Json)
    requires WellFormed(x) && !CaseDistinct(lower, x)
    ensures WellFormed(y) && Equivalent(x, y) && SortObj(lower, x) != SortObj(lower, y)
    decreases x
  {
    match x
    case Arr(xs) =>
      var i :| 0 <= i < |xs| && !CaseDistinct(lower, xs[i]);
      var v := CollisionShows(lower, xs[i]);
      ReplacedElement(lower, xs, i, v);
      EquivalentUpdate(xs, i, v);
      y := Arr(xs[i := v]);
    case Obj(ms) =>
      if i :| 0 <= i < |ms| && !CaseDistinct(lower, ms[i].value) {
        var v := CollisionShows(lower, ms[i].value);
        ReplacedValue(lower, ms, i, v);
        EquivalentMemberUpdate(ms, i, v);
        UpdateWellFormed(ms, i, v);
        y := Obj(ms[i := Member(ms[i].key, v)]);
      } else {
        var i, j :| 0 <= i < j < |ms| && SortKey(lower, ms[i].key) == SortKey(lower, ms[j].key);
        SwappedMembers(lower, ms, i, j);
        SwapEquivalent(ms, i, j);
        SortKeyTies(lower, ms[i].key, ms[j].key);
        SwapWellFormed(ms, i, j);
        y := Obj(Swap(ms, i, j));
      }
  }

  /** `sortObj` undoes every reordering exactly when no two keys, indices aside, collide after lower-casing. */
  lemma CanonicalExactly(lower: Lowering, x: Json)
    requires WellFormed(x)
    ensures (forall y :: WellFormed(y) && Equivalent(x, y) ==> SortObj(lower, x) == SortObj(lower, y)) <==>
      CaseDistinct(lower, x)
  {
    if CaseDistinct(lower, x) {
      forall y | WellFormed(y) && Equivalent(x, y) ensures SortObj(lower, x) == SortObj(lower, y) {
        EquivalentSameResult(lower, x, y);
      }
    } else {
      var y := CollisionShows(lower, x);
    }
  }

  lemma CollidingPair(lower: Lowering, m: Member, n: Member)
    requires m.key != n.key && SortKey(lower, m.key) == SortKey(lower, n.key)
    ensures Equivalent(Obj([m, n]), Obj([n, m]))
    ensures SortObj(lower, Obj([m, n])) != SortObj(lower, Obj([n, m]))
  {
    var ms := [m, n];
    assert Swap(ms, 0, 1) == [n, m];
    SwappedMembers(lower, ms, 0, 1);
    SwapEquivalent(ms, 0, 1);
  }

  /** A value on which it is not canonical: two keys that differ in case only. */
  lemma CollisionExample(lower: Lowering)
    requires lower("A") == lower("a")
    ensures var m, n := Member("a", Num("1")), Member("A", Num("2"));
      Equivalent(Obj([m, n]), Obj([n, m])) && SortObj(lower, Obj([m, n])) != SortObj(lower, Obj([n, m]))
  {
    var a, b := "a", "A";
    assert a != b && !IsIndex(a) && !IsIndex(b);
    SortKeyTies(lower, a, b);
    CollidingPair(lower, Member(a, Num("1")), Member(b, Num("2")));
  }
}
