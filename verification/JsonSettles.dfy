/** What happens to a value when arrays inside it are sorted because it shares them with another. */
module JsonSettles {
  import opened Json
  import opened JsonAbc
  import opened Sorting

  /** `sortObj` from outside: what it returns, and what it leaves of its argument. */
  datatype Effect = Effect(result: Json -> Json, left: Json -> Json)

  ghost predicate IsEffect(lower: Lowering, e: Effect) {
    && (forall x {:trigger SortObj(lower, x)} :: e.result(x) == SortObj(lower, x))
    && (forall x {:trigger After(lower, x)} :: e.left(x) == After(lower, x))
  }

  ghost function EffectOf(lower: Lowering): (e: Effect)
    ensures IsEffect(lower, e)
  {
    assert IsEffect(lower, Effect(Canon(lower), (x: Json) => After(lower, x)));
    var e :| IsEffect(lower, e);
    e
  }

  lemma EffectIs(lower: Lowering, x: Json)
    ensures EffectOf(lower).result(x) == SortObj(lower, x) && EffectOf(lower).left(x) == After(lower, x)
  {
  }

  /** `y` is on the way from `x` to what the call leaves of it, and is still `x` if that is where `x` was. */
  ghost predicate Settles(e: Effect, x: Json, y: Json) {
    e.left(y) == e.left(x) && (e.left(x) == x ==> y == x)
  }

  ghost predicate AllSettle(e: Effect, xs: seq<Json>, ys: seq<Json>) {
    |xs| == |ys| && forall i :: 0 <= i < |xs| ==> Settles(e, xs[i], ys[i])
  }

  ghost predicate MembersSettle(e: Effect, ms: seq<Member>, ns: seq<Member>) {
    |ms| == |ns| && forall i :: 0 <= i < |ms| ==> ms[i].key == ns[i].key && Settles(e, ms[i].value, ns[i].value)
  }

  /**
   * What is returned or left has nothing left to sort, what is left decides what is returned, and a value settles when
   * its parts do.
   */
  ghost predicate Lawful(e: Effect) {
    && (forall x {:trigger e.left(e.result(x))} :: e.left(e.result(x)) == e.result(x))
    && (forall x {:trigger e.left(e.left(x))} :: e.left(e.left(x)) == e.left(x))
    && (forall x {:trigger e.result(e.left(x))} :: e.result(e.left(x)) == e.result(x))
    && (forall xs, ys :: AllSettle(e, xs, ys) ==> Settles(e, Arr(xs), Arr(ys)))
    && (forall ms, ns :: MembersSettle(e, ms, ns) ==> Settles(e, Obj(ms), Obj(ns)))
  }

  lemma SettlesTransitive(e: Effect, x: Json, y: Json, z: Json)
    requires Settles(e, x, y) && Settles(e, y, z)
    ensures Settles(e, x, z)
  {
  }

  lemma SettlesSameResult(e: Effect, x: Json, y: Json)
    requires Lawful(e) && Settles(e, x, y)
    ensures e.result(y) == e.result(x)
  {
    assert e.result(e.left(x)) == e.result(x) && e.result(e.left(y)) == e.result(y);
  }

  // ---------- the effect of sortObj ----------

  /** What a call leaves behind is left alone by the next. */
  lemma {:induction false} AfterIdempotent(lower: Lowering, x: Json)
    ensures After(lower, After(lower, x)) == After(lower, x)
    decreases x
  {
    match x
    case Arr(_) =>
      Idempotent(lower, x);
    case Obj(ms) =>
      forall i | 0 <= i < |ms| ensures After(lower, After(lower, ms[i].value)) == After(lower, ms[i].value) {
        AfterIdempotent(lower, ms[i].value);
      }
    case _ =>
  }

  lemma SettledMembers(lower: Lowering, ns: seq<Member>)
    requires forall i :: 0 <= i < |ns| ==> After(lower, ns[i].value) == ns[i].value
    ensures After(lower, Obj(ns)) == Obj(ns)
  {
  }

  /** A result has nothing left to sort. */
  lemma {:induction false} ResultSettled(lower: Lowering, x: Json)
    ensures After(lower, SortObj(lower, x)) == SortObj(lower, x)
    decreases x
  {
    match x
    case Arr(_) =>
      Idempotent(lower, x);
    case Obj(ms) =>
      var ns := SortBy(KeyOrder(lower), Map(CanonMember(lower), ms));
      ObjectResult(lower, ms);
      forall i | 0 <= i < |ns| ensures After(lower, ns[i].value) == ns[i].value {
        var j := SortedImage(KeyOrder(lower), CanonMember(lower), ms, i);
        ResultSettled(lower, ms[j].value);
      }
      SettledMembers(lower, ns);
    case _ =>
  }

  /** A value on the way is equal up to order, and gives the same result. */
  lemma SettlesEquivalent(lower: Lowering, x: Json, y: Json)
    requires Settles(EffectOf(lower), x, y)
    ensures SortObj(lower, y) == SortObj(lower, x) && Equivalent(x, y)
  {
    EffectIs(lower, x);
    EffectIs(lower, y);
    AfterSameResult(lower, x);
    AfterSameResult(lower, y);
    SameResultEquivalent(lower, x, y);
  }

  lemma SortedElement(lower: Lowering, xs: seq<Json>, i: int)
    requires SortObj(lower, Arr(xs)) == Arr(xs) && 0 <= i < |xs|
    ensures After(lower, xs[i]) == xs[i]
  {
    ArrayResult(lower, xs);
    var j := SortedImage(TextOrder, Canon(lower), xs, i);
    ResultSettled(lower, xs[j]);
  }

  lemma SettlesArray(lower: Lowering, xs: seq<Json>, ys: seq<Json>)
    requires AllSettle(EffectOf(lower), xs, ys)
    ensures Settles(EffectOf(lower), Arr(xs), Arr(ys))
  {
    var f := Canon(lower);
    forall i | 0 <= i < |xs| ensures f(xs[i]) == f(ys[i]) {
      SettlesEquivalent(lower, xs[i], ys[i]);
    }
    assert Map(f, xs) == Map(f, ys);
    ArrayResult(lower, xs);
    ArrayResult(lower, ys);
    if SortObj(lower, Arr(xs)) == Arr(xs) {
      forall i | 0 <= i < |xs| ensures xs[i] == ys[i] {
        SortedElement(lower, xs, i);
        EffectIs(lower, xs[i]);
        assert Settles(EffectOf(lower), xs[i], ys[i]);
      }
    }
    EffectIs(lower, Arr(xs));
    EffectIs(lower, Arr(ys));
  }

  lemma SettlesObject(lower: Lowering, ms: seq<Member>, ns: seq<Member>)
    requires MembersSettle(EffectOf(lower), ms, ns)
    ensures Settles(EffectOf(lower), Obj(ms), Obj(ns))
  {
    var a, b := After(lower, Obj(ms)).members, After(lower, Obj(ns)).members;
    forall i | 0 <= i < |ms| ensures a[i] == b[i] && (a[i] == ms[i] ==> ms[i] == ns[i]) {
      EffectIs(lower, ms[i].value);
      EffectIs(lower, ns[i].value);
      assert Settles(EffectOf(lower), ms[i].value, ns[i].value);
    }
    assert a == b;
    EffectIs(lower, Obj(ms));
    EffectIs(lower, Obj(ns));
  }

  /** The effect of `sortObj` is lawful. */
  lemma EffectLawful(lower: Lowering)
    ensures Lawful(EffectOf(lower))
  {
    var e := EffectOf(lower);
    forall x ensures e.left(e.result(x)) == e.result(x) {
      EffectIs(lower, x);
      EffectIs(lower, SortObj(lower, x));
      ResultSettled(lower, x);
    }
    forall x ensures e.left(e.left(x)) == e.left(x) && e.result(e.left(x)) == e.result(x) {
      EffectIs(lower, x);
      EffectIs(lower, After(lower, x));
      AfterIdempotent(lower, x);
      AfterSameResult(lower, x);
    }
    forall xs, ys | AllSettle(e, xs, ys) ensures Settles(e, Arr(xs), Arr(ys)) { SettlesArray(lower, xs, ys); }
    forall ms, ns | MembersSettle(e, ms, ns) ensures Settles(e, Obj(ms), Obj(ns)) { SettlesObject(lower, ms, ns); }
  }

  function OnValue(f: Json -> Json): Member -> Member {
    (m: Member) => Member(m.key, f(m.value))
  }

  /** What `sortObj` does to arrays and to objects, in terms of what it does to their parts. */
  ghost predicate Sorts(lower: Lowering, e: Effect) {
    && (forall p: Json :: !p.Arr? && !p.Obj? ==> e.result(p) == p && e.left(p) == p)
    && (forall xs :: e.result(Arr(xs)) == Arr(SortBy(TextOrder, Map(e.result, SortBy(DefaultOrder, xs)))))
    && (forall xs :: e.left(Arr(xs)) == e.result(Arr(xs)))
    && (forall ms :: e.result(Obj(ms)) == Obj(Map(OnValue(e.result), SortBy(KeyOrder(lower), ms))))
    && (forall ms :: e.left(Obj(ms)) == Obj(Map(OnValue(e.left), ms)))
  }

  lemma EffectSorts(lower: Lowering)
    ensures Sorts(lower, EffectOf(lower))
  {
    var e := EffectOf(lower);
    forall p: Json | !p.Arr? && !p.Obj? ensures e.result(p) == p && e.left(p) == p {
      EffectIs(lower, p);
    }
    forall xs
      ensures e.result(Arr(xs)) == Arr(SortBy(TextOrder, Map(e.result, SortBy(DefaultOrder, xs))))
      ensures e.left(Arr(xs)) == e.result(Arr(xs))
    {
      EffectIs(lower, Arr(xs));
      SortObjArr(lower, xs);
      SameMaps(e.result, Canon(lower), SortBy(DefaultOrder, xs)) by {
        forall x ensures e.result(x) == Canon(lower)(x) { EffectIs(lower, x); }
      }
    }
    forall ms
      ensures e.result(Obj(ms)) == Obj(Map(OnValue(e.result), SortBy(KeyOrder(lower), ms)))
      ensures e.left(Obj(ms)) == Obj(Map(OnValue(e.left), ms))
    {
      EffectOnObject(lower, ms);
    }
  }

  lemma EffectOnObject(lower: Lowering, ms: seq<Member>)
    ensures var e := EffectOf(lower);
      && e.result(Obj(ms)) == Obj(Map(OnValue(e.result), SortBy(KeyOrder(lower), ms)))
      && e.left(Obj(ms)) == Obj(Map(OnValue(e.left), ms))
  {
    var e, ns := EffectOf(lower), SortBy(KeyOrder(lower), ms);
    EffectIs(lower, Obj(ms));
    ObjectResult(lower, ms);
    forall m ensures CanonMember(lower)(m) == OnValue(e.result)(m) { EffectIs(lower, m.value); }
    SameMaps(CanonMember(lower), OnValue(e.result), ns);
    forall i | 0 <= i < |ms| ensures After(lower, Obj(ms)).members[i] == OnValue(e.left)(ms[i]) {
      EffectIs(lower, ms[i].value);
    }
    assert After(lower, Obj(ms)).members == Map(OnValue(e.left), ms);
  }

  lemma SameMaps<A(!new), B>(f: A -> B, g: A -> B, s: seq<A>)
    requires forall x :: f(x) == g(x)
    ensures Map(f, s) == Map(g, s)
  {
  }
}
