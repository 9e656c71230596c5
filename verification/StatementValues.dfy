/** What a statement says about the value of its attribute. */
module StatementValues {
  import opened Content
  import opened Decimal
  import opened Json
  import opened JsonAbc
  import opened Sorting
  import opened Texts

  /** The two values make the same statement under one key. */
  predicate SameDisclosure(lower: Lowering, v: Json, w: Json) {
    if IsContainer(v) && IsContainer(w) then SortedEntries(lower, v) == SortedEntries(lower, w) else v == w
  }

  lemma AfterExpandsAlike(lower: Lowering, v: Json)
    ensures SameDisclosure(lower, v, After(lower, v))
  {
    AfterSameResult(lower, v);
  }

  lemma PrefixedInjective(vocab: string, a: seq<Member>, b: seq<Member>)
    requires Prefixed(vocab, a) == Prefixed(vocab, b)
    ensures a == b
  {
    assert |Prefixed(vocab, a)| == |Prefixed(vocab, b)|;
    forall i | 0 <= i < |a| ensures a[i] == b[i] {
      assert Prefixed(vocab, a)[i] == Prefixed(vocab, b)[i];
      DropSame(vocab, a[i].key, b[i].key);
    }
  }

  lemma ExpandValueDecides(lower: Lowering, vocab: string, v: Json, w: Json)
    ensures ExpandValue(lower, vocab, v) == ExpandValue(lower, vocab, w) <==> SameDisclosure(lower, v, w)
  {
    if IsContainer(v) && IsContainer(w) && ExpandValue(lower, vocab, v) == ExpandValue(lower, vocab, w) {
      PrefixedInjective(vocab, SortedEntries(lower, v), SortedEntries(lower, w));
    }
  }

  /** Values of one kind that make the same statement are equal up to order, whatever their keys. */
  lemma SameDisclosureEquivalent(lower: Lowering, v: Json, w: Json)
    requires v.Arr? == w.Arr? && SameDisclosure(lower, v, w)
    ensures Equivalent(v, w)
  {
    if IsContainer(v) && IsContainer(w) {
      if v.Arr? {
        SameElements(SortObj(lower, v).elems, SortObj(lower, w).elems);
      }
      SameResultEquivalent(lower, v, w);
    } else {
      EquivalentReflexive(v);
    }
  }

  lemma SameElements(a: seq<Json>, b: seq<Json>)
    requires EntriesOf(Arr(a)) == EntriesOf(Arr(b))
    ensures a == b
  {
    assert |EntriesOf(Arr(a))| == |EntriesOf(Arr(b))|;
    forall i | 0 <= i < |a| ensures a[i] == b[i] {
      assert EntriesOf(Arr(a))[i].value == EntriesOf(Arr(b))[i].value;
    }
  }

  /** Among values of one kind, with keys distinct after lower-casing, statements are the same exactly up to order. */
  lemma DisclosureFixesValue(lower: Lowering, v: Json, w: Json)
    requires v.Arr? == w.Arr?
    ensures SameDisclosure(lower, v, w) ==> Equivalent(v, w)
    ensures CaseDistinct(lower, v) && Equivalent(v, w) ==> SameDisclosure(lower, v, w)
  {
    if SameDisclosure(lower, v, w) {
      SameDisclosureEquivalent(lower, v, w);
    }
    if CaseDistinct(lower, v) && Equivalent(v, w) {
      EquivalentSameResult(lower, v, w);
    }
  }

  // ---------- arrays and objects posing as each other ----------

  ghost predicate AllCanonical(lower: Lowering, es: seq<Member>) {
    forall i :: 0 <= i < |es| ==> SortObj(lower, es[i].value) == es[i].value
  }

  lemma EntriesCanonical(lower: Lowering, v: Json)
    requires IsContainer(v)
    ensures AllCanonical(lower, SortedEntries(lower, v))
  {
    var es := SortedEntries(lower, v);
    match v
    case Arr(xs) =>
      ArrayResult(lower, xs);
      forall i | 0 <= i < |es| ensures SortObj(lower, es[i].value) == es[i].value {
        var j := SortedImage(TextOrder, Canon(lower), xs, i);
        Idempotent(lower, xs[j]);
      }
    case Obj(ms) =>
      ObjectResult(lower, ms);
      forall i | 0 <= i < |es| ensures SortObj(lower, es[i].value) == es[i].value {
        var j := SortedImage(KeyOrder(lower), CanonMember(lower), ms, i);
        Idempotent(lower, ms[j].value);
      }
  }

  function ValueOf(m: Member): Json {
    m.value
  }

  /** The keys are as a result enumerates them, so an object with these entries renders as they stand. */
  ghost predicate PassAsObject(lower: Lowering, es: seq<Member>) {
    Sorted(KeyOrder(lower), es)
  }

  ghost predicate KeysArePositions(ms: seq<Member>) {
    forall i :: 0 <= i < |ms| ==> ms[i].key == Digits(i)
  }

  /** The keys are positions and the values are in the order of `sortObj`, so an array renders as these entries. */
  ghost predicate PassAsArray(es: seq<Member>) {
    KeysArePositions(es) && Sorted(TextOrder, Map(ValueOf, es))
  }

  lemma ObjectPasses(lower: Lowering, ms: seq<Member>)
    ensures PassAsObject(lower, SortedEntries(lower, Obj(ms)))
  {
    ObjectResult(lower, ms);
    SortSorted(KeyOrder(lower), Map(CanonMember(lower), ms));
  }

  lemma PassingObject(lower: Lowering, es: seq<Member>)
    requires AllCanonical(lower, es) && PassAsObject(lower, es)
    ensures SortedEntries(lower, Obj(es)) == es
  {
    assert Map(CanonMember(lower), es) == es;
    SortOfSorted(KeyOrder(lower), es);
    ObjectResult(lower, es);
  }

  lemma ArrayPasses(lower: Lowering, xs: seq<Json>)
    ensures PassAsArray(SortedEntries(lower, Arr(xs)))
  {
    var ys := SortBy(TextOrder, Map(Canon(lower), xs));
    ArrayResult(lower, xs);
    SortSorted(TextOrder, Map(Canon(lower), xs));
    assert Map(ValueOf, EntriesOf(Arr(ys))) == ys;
  }

  lemma PassingArray(lower: Lowering, es: seq<Member>)
    requires AllCanonical(lower, es) && PassAsArray(es)
    ensures SortedEntries(lower, Arr(Map(ValueOf, es))) == es
  {
    var xs := Map(ValueOf, es);
    assert Map(Canon(lower), xs) == xs;
    SortOfSorted(TextOrder, xs);
    ArrayResult(lower, xs);
    var fs := EntriesOf(Arr(xs));
    assert |fs| == |es| && forall i :: 0 <= i < |es| ==> fs[i] == es[i];
  }

  /** Positions are indices, so they are enumerated as the numbers they are. */
  lemma PositionsEnumerated(lower: Lowering, es: seq<Member>)
    requires |es| <= MAX_LENGTH && KeysArePositions(es)
    ensures Sorted(KeyOrder(lower), es)
  {
    forall i, j | 0 <= i < j < |es| ensures LexLe(KeyOrder(lower)(es[i]), KeyOrder(lower)(es[j])) {
      DigitsIndex(i);
      DigitsIndex(j);
      assert KeyOrder(lower)(es[i]) == [0, i] && KeyOrder(lower)(es[j]) == [0, j];
    }
  }

  /** An object whose keys are all indices has them in their order already. */
  lemma IndicesStay(lower: Lowering, ms: seq<Member>)
    requires Sorted(IndexOrder, ms) && forall i :: 0 <= i < |ms| ==> IsIndex(ms[i].key)
    ensures SortBy(KeyOrder(lower), ms) == ms
  {
    forall i, j | 0 <= i < j < |ms| ensures LexLe(KeyOrder(lower)(ms[i]), KeyOrder(lower)(ms[j])) {
      assert LexLe(IndexOrder(ms[i]), IndexOrder(ms[j]));
      assert KeyOrder(lower)(ms[i]) == IndexOrder(ms[i]) && KeyOrder(lower)(ms[j]) == IndexOrder(ms[j]);
    }
    SortOfSorted(KeyOrder(lower), ms);
  }

  /** There is a container with these sorted entries. */
  ghost predicate CanBeRead(lower: Lowering, es: seq<Member>) {
    PassAsObject(lower, es) || (|es| <= MAX_LENGTH && PassAsArray(es))
  }

  lemma ContainerOf(lower: Lowering, es: seq<Member>) returns (w: Json)
    requires AllCanonical(lower, es) && CanBeRead(lower, es)
    requires DistinctKeys(es) && forall i :: 0 <= i < |es| ==> WellFormed(es[i].value)
    ensures WellFormed(w) && IsContainer(w) && SortedEntries(lower, w) == es
  {
    if PassAsObject(lower, es) {
      PassingObject(lower, es);
      KeyOrderEnumerates(lower, es);
      w := Obj(es);
    } else {
      PassingArray(lower, es);
      w := Arr(Map(ValueOf, es));
    }
  }

  /** Position by position, the members have the position for a key and the element for a canonical value. */
  ghost predicate IsByPosition(lower: Lowering, ms: seq<Member>, ys: seq<Json>) {
    |ms| == |ys| && forall i :: 0 <= i < |ys| ==> ms[i].key == Digits(i) && SortObj(lower, ms[i].value) == ys[i]
  }

  lemma ByPosition(lower: Lowering, ms: seq<Member>, ys: seq<Json>)
    ensures EntriesOf(Arr(ys)) == Map(CanonMember(lower), ms) <==> IsByPosition(lower, ms, ys)
  {
    var a, o := EntriesOf(Arr(ys)), Map(CanonMember(lower), ms);
    assert forall i :: 0 <= i < |ys| ==> a[i] == Member(Digits(i), ys[i]);
    if a == o {
      assert |ms| == |ys|;
      forall i | 0 <= i < |ys| ensures ms[i].key == Digits(i) && SortObj(lower, ms[i].value) == ys[i] {
        assert a[i] == o[i];
      }
    }
  }

  lemma ArrayPosesSorted(lower: Lowering, xs: seq<Json>, ms: seq<Member>)
    ensures SameDisclosure(lower, Arr(xs), Obj(ms)) <==>
      IsByPosition(lower, SortBy(KeyOrder(lower), ms), SortBy(TextOrder, Map(Canon(lower), xs)))
  {
    ArrayResult(lower, xs);
    ObjectResult(lower, ms);
    ByPosition(lower, SortBy(KeyOrder(lower), ms), SortBy(TextOrder, Map(Canon(lower), xs)));
  }

  lemma PositionsAreIndices(ns: seq<Member>, ms: seq<Member>)
    requires KeysArePositions(ns) && |ns| <= MAX_LENGTH && multiset(ns) == multiset(ms)
    ensures forall i :: 0 <= i < |ms| ==> IsIndex(ms[i].key)
  {
    forall i | 0 <= i < |ms| ensures IsIndex(ms[i].key) {
      SameMembers(ns, ms, ms[i]);
      var j :| 0 <= j < |ns| && ns[j] == ms[i];
      DigitsIndex(j);
    }
  }

  lemma PositionsStay(lower: Lowering, ms: seq<Member>)
    requires Sorted(IndexOrder, ms) && |ms| <= MAX_LENGTH
    ensures KeysArePositions(SortBy(KeyOrder(lower), ms)) <==> KeysArePositions(ms)
    ensures KeysArePositions(ms) ==> SortBy(KeyOrder(lower), ms) == ms
  {
    if KeysArePositions(SortBy(KeyOrder(lower), ms)) {
      PositionsAreIndices(SortBy(KeyOrder(lower), ms), ms);
      IndicesStay(lower, ms);
    }
    if KeysArePositions(ms) {
      PositionsEnumerated(lower, ms);
      SortOfSorted(KeyOrder(lower), ms);
    }
  }

  lemma SortedByPosition(lower: Lowering, ms: seq<Member>, ys: seq<Json>)
    requires Sorted(IndexOrder, ms) && |ys| <= MAX_LENGTH
    ensures IsByPosition(lower, SortBy(KeyOrder(lower), ms), ys) <==> IsByPosition(lower, ms, ys)
  {
    if |ms| == |ys| {
      PositionsStay(lower, ms);
      var ns := SortBy(KeyOrder(lower), ms);
      assert IsByPosition(lower, ns, ys) ==> KeysArePositions(ns);
      assert IsByPosition(lower, ms, ys) ==> KeysArePositions(ms);
    }
  }

  /**
   * An array and an object make the same statement exactly when the keys of the object are the positions, and its
   * values are those of the sorted array.
   */
  lemma ArrayPosesExactly(lower: Lowering, xs: seq<Json>, ms: seq<Member>)
    requires WellFormed(Arr(xs)) && WellFormed(Obj(ms))
    ensures SameDisclosure(lower, Arr(xs), Obj(ms)) <==>
      IsByPosition(lower, ms, SortBy(TextOrder, Map(Canon(lower), xs)))
  {
    ArrayPosesSorted(lower, xs, ms);
    SortedByPosition(lower, ms, SortBy(TextOrder, Map(Canon(lower), xs)));
  }

  /** Only values equal up to order make the statement of `v`. */
  ghost predicate FixesValue(lower: Lowering, v: Json) {
    forall w :: WellFormed(w) && SameDisclosure(lower, v, w) ==> Equivalent(v, w)
  }

  /** The value passes for the other kind of container: any array, and an object whose sorted entries are an array. */
  ghost predicate Poses(lower: Lowering, v: Json) {
    v.Arr? || (v.Obj? && PassAsArray(SortedEntries(lower, v)))
  }

  lemma OtherKindPoses(lower: Lowering, v: Json, w: Json)
    requires IsContainer(v) && IsContainer(w) && v.Arr? != w.Arr? && SameDisclosure(lower, v, w)
    ensures Poses(lower, v)
    ensures v.Obj? ==> |w.elems| == |v.members|
  {
    if w.Arr? {
      ArrayPasses(lower, w.elems);
      ArrayResult(lower, w.elems);
      ObjectResult(lower, v.members);
      assert |SortedEntries(lower, w)| == |w.elems| && |SortedEntries(lower, v)| == |v.members|;
    }
  }

  lemma EntriesWellFormed(lower: Lowering, v: Json)
    requires IsContainer(v) && WellFormed(v)
    ensures var es := SortedEntries(lower, v);
      DistinctKeys(es) && (forall i :: 0 <= i < |es| ==> WellFormed(es[i].value)) &&
      |es| == if v.Arr? then |v.elems| else |v.members|
  {
    SortKeepsWellFormed(lower, v);
    EntriesDistinct(SortObj(lower, v));
    if v.Arr? {
      ArrayResult(lower, v.elems);
    } else {
      ObjectResult(lower, v.members);
    }
  }

  /** Every array makes the statement of an object: the one with the sorted elements under their positions. */
  lemma ArrayAlwaysPoses(lower: Lowering, xs: seq<Json>)
    requires WellFormed(Arr(xs))
    ensures var w := Obj(SortedEntries(lower, Arr(xs)));
      WellFormed(w) && SameDisclosure(lower, Arr(xs), w) && !Equivalent(Arr(xs), w)
  {
    var es := SortedEntries(lower, Arr(xs));
    EntriesCanonical(lower, Arr(xs));
    EntriesWellFormed(lower, Arr(xs));
    ArrayPasses(lower, xs);
    PositionsEnumerated(lower, es);
    KeyOrderEnumerates(lower, es);
    PassingObject(lower, es);
  }

  /** An object whose keys are exactly the positions of an array, with values that by position are in its order. */
  ghost predicate IsListed(lower: Lowering, ms: seq<Member>) {
    |ms| <= MAX_LENGTH && KeysArePositions(ms) && Sorted(TextOrder, Map(Canon(lower), Map(ValueOf, ms)))
  }

  lemma CanonMembers(lower: Lowering, ns: seq<Member>)
    ensures KeysArePositions(Map(CanonMember(lower), ns)) <==> KeysArePositions(ns)
    ensures Map(ValueOf, Map(CanonMember(lower), ns)) == Map(Canon(lower), Map(ValueOf, ns))
  {
    var es := Map(CanonMember(lower), ns);
    assert forall i :: 0 <= i < |ns| ==> es[i].key == ns[i].key;
  }

  lemma ListedPasses(lower: Lowering, ms: seq<Member>)
    requires Sorted(IndexOrder, ms) && |ms| <= MAX_LENGTH
    ensures PassAsArray(SortedEntries(lower, Obj(ms))) <==> IsListed(lower, ms)
  {
    ObjectResult(lower, ms);
    CanonMembers(lower, SortBy(KeyOrder(lower), ms));
    PositionsStay(lower, ms);
  }

  lemma ListedPoses(lower: Lowering, ms: seq<Member>) returns (w: Json)
    requires WellFormed(Obj(ms)) && IsListed(lower, ms)
    ensures WellFormed(w) && SameDisclosure(lower, Obj(ms), w) && !Equivalent(Obj(ms), w)
  {
    var es := SortedEntries(lower, Obj(ms));
    ListedPasses(lower, ms);
    EntriesCanonical(lower, Obj(ms));
    EntriesWellFormed(lower, Obj(ms));
    PassingArray(lower, es);
    w := Arr(Map(ValueOf, es));
  }

  /**
   * A statement fixes its value up to order exactly when the value is neither an array nor an object whose keys are the
   * positions of an array and whose values are in its order.
   */
  lemma FixesValueExactly(lower: Lowering, v: Json)
    requires WellFormed(v)
    ensures FixesValue(lower, v) <==> !v.Arr? && !(v.Obj? && IsListed(lower, v.members))
  {
    if v.Arr? {
      ArrayAlwaysPoses(lower, v.elems);
    } else if v.Obj? && IsListed(lower, v.members) {
      var w := ListedPoses(lower, v.members);
    } else {
      forall w | WellFormed(w) && SameDisclosure(lower, v, w) ensures Equivalent(v, w) {
        if w.Arr? && v.Obj? {
          OtherKindPoses(lower, v, w);
          ListedPasses(lower, v.members);
        } else {
          SameDisclosureEquivalent(lower, v, w);
        }
      }
    }
  }

  /** The empty array and the empty object make the same statement. */
  lemma EmptyArrayPosesAsObject(lower: Lowering)
    ensures SameDisclosure(lower, Arr([]), Obj([])) && !Equivalent(Arr([]), Obj([]))
  {
    ArrayPosesSorted(lower, [], []);
  }

  /** So do an array of one element and the object with its position for a key. */
  lemma ArrayPosesAsObject(lower: Lowering, x: Json)
    ensures SameDisclosure(lower, Arr([x]), Obj([Member("0", x)]))
    ensures !Equivalent(Arr([x]), Obj([Member("0", x)]))
  {
    var m := Member("0", x);
    assert Map(Canon(lower), [x]) == [SortObj(lower, x)];
    SortSingleton(KeyOrder(lower), m);
    SortSingleton(TextOrder, SortObj(lower, x));
    OneByPosition(lower, x);
    ArrayPosesSorted(lower, [x], [m]);
  }

  lemma SortSingleton<T>(key: T -> Key, x: T)
    ensures SortBy(key, [x]) == [x]
  {
    SortOfSorted(key, [x]);
  }

  lemma OneByPosition(lower: Lowering, x: Json)
    ensures IsByPosition(lower, [Member("0", x)], [SortObj(lower, x)])
  {
    assert Digits(0) == "0";
  }

  /** Contents with the same heading, vocabulary and keys, whose values make the same statements, expand alike. */
  lemma ExpandAlike(lower: Lowering, c: Content, d: Content)
    requires Heading(d) == Heading(c) && Vocabulary(d) == Vocabulary(c) && |Attributes(d)| == |Attributes(c)|
    requires forall i :: 0 <= i < |Attributes(c)| ==>
      && Attributes(d)[i].key == Attributes(c)[i].key
      && SameDisclosure(lower, Attributes(c)[i].value, Attributes(d)[i].value)
    ensures Expand(lower, d) == Expand(lower, c)
  {
    var f, a, b := ExpandAttribute(lower, Vocabulary(c)), Attributes(c), Attributes(d);
    forall i | 0 <= i < |a| ensures f(b[i]) == f(a[i]) {
      ExpandValueDecides(lower, Vocabulary(c), a[i].value, b[i].value);
    }
    assert Map(f, b) == Map(f, a);
  }

  /** Making the statements leaves arrays reordered; making them again gives the same statements. */
  lemma MutationInvisible(lower: Lowering, c: Content)
    ensures Statements(lower, AfterContent(lower, c)) == Statements(lower, c)
  {
    forall i | 0 <= i < |Attributes(c)|
      ensures SameDisclosure(lower, Attributes(c)[i].value, After(lower, Attributes(c)[i].value))
    {
      AfterExpandsAlike(lower, Attributes(c)[i].value);
    }
    ExpandAlike(lower, c, AfterContent(lower, c));
  }
}
