/**
 * `sortObj` on JavaScript's mutable arrays and objects: arrays are sorted where they are,
 * objects are rebuilt, and arrays and objects may be shared as long as none contains itself.
 */
module JsonHeap {
  import opened Json
  import opened JsonAbc
  import opened JsonSettles
  import opened Sorting

  type Primitive = j: Json | !j.Arr? && !j.Obj? witness Null

  datatype Value = Prim(p: Primitive) | ArrRef(a: JsArray) | ObjRef(o: JsObject)

  datatype Entry = Entry(key: string, value: Value)

  class JsArray {
    var elems: seq<Value>
  }

  class JsObject {
    var entries: seq<Entry>

    constructor ()
      ensures entries == []
    {
      entries := [];
    }
  }

  // ---------- a part of the heap, and what it reads as ----------

  /** What an array or object holds, all of it from lower levels. */
  datatype Node<T> = Node(level: nat, items: seq<T>)

  datatype Heap = Heap(arrays: map<JsArray, Node<Value>>, objects: map<JsObject, Node<Entry>>)

  /** The fields are as recorded. */
  ghost predicate Matches(h: Heap)
    reads h.arrays.Keys, h.objects.Keys
  {
    && (forall a :: a in h.arrays ==> a.elems == h.arrays[a].items)
    && (forall o :: o in h.objects ==> o.entries == h.objects[o].items)
  }

  ghost predicate Has(h: Heap, v: Value) {
    match v
    case Prim(_) => true
    case ArrRef(a) => a in h.arrays
    case ObjRef(o) => o in h.objects
  }

  ghost function Height(h: Heap, v: Value): nat
    requires Has(h, v)
  {
    match v
    case Prim(_) => 0
    case ArrRef(a) => h.arrays[a].level + 1
    case ObjRef(o) => h.objects[o].level + 1
  }

  ghost predicate Under(h: Heap, v: Value, level: nat) {
    Has(h, v) && Height(h, v) <= level
  }

  ghost predicate AllUnder(h: Heap, vs: seq<Value>, level: nat) {
    forall i :: 0 <= i < |vs| ==> Under(h, vs[i], level)
  }

  function Values(es: seq<Entry>): (vs: seq<Value>)
    ensures |vs| == |es|
    ensures forall i :: 0 <= i < |es| ==> vs[i] == es[i].value
  {
    seq(|es|, i requires 0 <= i < |es| => es[i].value)
  }

  /** Nothing leads out of this part of the heap, and nothing leads back to itself. */
  ghost predicate Acyclic(h: Heap) {
    && (forall a :: a in h.arrays ==> AllUnder(h, h.arrays[a].items, h.arrays[a].level))
    && (forall o :: o in h.objects ==> AllUnder(h, Values(h.objects[o].items), h.objects[o].level))
  }

  /** The JSON value the engine sees when it renders `v`. */
  ghost function Read(h: Heap, v: Value): Json
    requires Acyclic(h) && Has(h, v)
    decreases Height(h, v), 0
  {
    match v
    case Prim(p) => p
    case ArrRef(a) => Arr(Reads(h, h.arrays[a].items, h.arrays[a].level))
    case ObjRef(o) =>
      var es := h.objects[o].items;
      Obj(Members(es, Reads(h, Values(es), h.objects[o].level)))
  }

  ghost function Reads(h: Heap, vs: seq<Value>, level: nat): (js: seq<Json>)
    requires Acyclic(h) && AllUnder(h, vs, level)
    ensures |js| == |vs|
    ensures forall i :: 0 <= i < |vs| ==> js[i] == Read(h, vs[i])
    decreases level, 1
  {
    seq(|vs|, i requires 0 <= i < |vs| => Read(h, vs[i]))
  }

  function Members(es: seq<Entry>, js: seq<Json>): (ms: seq<Member>)
    requires |es| == |js|
    ensures |ms| == |js|
    ensures forall i :: 0 <= i < |ms| ==> ms[i] == Member(es[i].key, js[i])
  {
    seq(|js|, i requires 0 <= i < |js| => Member(es[i].key, js[i]))
  }

  lemma HeadAndTail(h: Heap, vs: seq<Value>, level: nat)
    requires Acyclic(h) && AllUnder(h, vs, level) && vs != []
    ensures Under(h, vs[0], level) && AllUnder(h, vs[1..], level)
    ensures Reads(h, vs, level) == [Read(h, vs[0])] + Reads(h, vs[1..], level)
  {
    var tail := vs[1..];
    forall i | 0 <= i < |tail| ensures Under(h, tail[i], level) {
      assert tail[i] == vs[i + 1];
    }
  }

  /** The same from the fields. */
  function Render(v: Value, ghost h: Heap): (j: Json)
    requires Matches(h) && Acyclic(h) && Has(h, v)
    reads h.arrays.Keys, h.objects.Keys
    ensures j == Read(h, v)
    decreases Height(h, v), 0
  {
    match v
    case Prim(p) => p
    case ArrRef(a) => Arr(RenderAll(a.elems, h, h.arrays[a].level))
    case ObjRef(o) => Obj(Members(o.entries, RenderAll(Values(o.entries), h, h.objects[o].level)))
  }

  function RenderAll(vs: seq<Value>, ghost h: Heap, ghost level: nat): (js: seq<Json>)
    requires Matches(h) && Acyclic(h) && AllUnder(h, vs, level)
    reads h.arrays.Keys, h.objects.Keys
    ensures js == Reads(h, vs, level)
    decreases level, 1, |vs|
  {
    if vs == [] then [] else
      HeadAndTail(h, vs, level);
      [Render(vs[0], h)] + RenderAll(vs[1..], h, level)
  }

  // ---------- from one state of the heap to a later one ----------

  /** The same arrays, and at least the same objects, which stay as they are. */
  ghost predicate Extends(h: Heap, k: Heap) {
    && k.arrays.Keys == h.arrays.Keys
    && (forall a :: a in h.arrays ==> k.arrays[a].level == h.arrays[a].level)
    && (forall o :: o in h.objects ==> o in k.objects && k.objects[o] == h.objects[o])
  }

  lemma ExtendsHas(h: Heap, k: Heap, v: Value)
    requires Extends(h, k) && Has(h, v)
    ensures Has(k, v) && Height(k, v) == Height(h, v)
  {
  }

  /** Arrays below the level are as before. */
  ghost predicate SameBelow(h: Heap, k: Heap, level: nat)
    requires Extends(h, k)
  {
    forall a :: a in h.arrays && h.arrays[a].level < level ==> k.arrays[a] == h.arrays[a]
  }

  /** What only leads to unchanged arrays reads as before. */
  lemma {:induction false} ReadBelow(h: Heap, k: Heap, v: Value, level: nat)
    requires Acyclic(h) && Acyclic(k) && Extends(h, k) && SameBelow(h, k, level) && Under(h, v, level)
    ensures Under(k, v, level) && Read(k, v) == Read(h, v)
    decreases Height(h, v), 0
  {
    match v
    case Prim(_) =>
    case ArrRef(a) =>
      ReadsBelow(h, k, h.arrays[a].items, h.arrays[a].level);
    case ObjRef(o) =>
      ReadsBelow(h, k, Values(h.objects[o].items), h.objects[o].level);
  }

  lemma {:induction false} ReadsBelow(h: Heap, k: Heap, vs: seq<Value>, level: nat)
    requires Acyclic(h) && Acyclic(k) && Extends(h, k) && SameBelow(h, k, level) && AllUnder(h, vs, level)
    ensures AllUnder(k, vs, level) && Reads(k, vs, level) == Reads(h, vs, level)
    decreases level, 1
  {
    forall i | 0 <= i < |vs| ensures Under(k, vs[i], level) && Read(k, vs[i]) == Read(h, vs[i]) {
      ReadBelow(h, k, vs[i], level);
    }
  }

  /** The values below the level read as before, or on the way to their sorted form. */
  ghost predicate SettledBelow(e: Effect, h: Heap, k: Heap, level: nat)
    requires Acyclic(h) && Acyclic(k) && Extends(h, k)
  {
    && (forall a {:trigger Settles(e, Read(h, ArrRef(a)), Read(k, ArrRef(a)))} ::
      a in h.arrays && h.arrays[a].level < level ==> Settles(e, Read(h, ArrRef(a)), Read(k, ArrRef(a))))
    && (forall o {:trigger Settles(e, Read(h, ObjRef(o)), Read(k, ObjRef(o)))} ::
      o in h.objects && h.objects[o].level < level ==> Settles(e, Read(h, ObjRef(o)), Read(k, ObjRef(o))))
  }

  ghost predicate Settled(e: Effect, h: Heap, k: Heap)
    requires Acyclic(h) && Acyclic(k) && Extends(h, k)
  {
    && (forall a {:trigger Settles(e, Read(h, ArrRef(a)), Read(k, ArrRef(a)))} ::
      a in h.arrays ==> Settles(e, Read(h, ArrRef(a)), Read(k, ArrRef(a))))
    && (forall o {:trigger Settles(e, Read(h, ObjRef(o)), Read(k, ObjRef(o)))} ::
      o in h.objects ==> Settles(e, Read(h, ObjRef(o)), Read(k, ObjRef(o))))
  }

  lemma SettledValue(e: Effect, h: Heap, k: Heap, v: Value, level: nat)
    requires Acyclic(h) && Acyclic(k) && Extends(h, k) && SettledBelow(e, h, k, level) && Under(h, v, level)
    ensures Under(k, v, level) && Settles(e, Read(h, v), Read(k, v))
  {
  }

  lemma SettledTransitive(e: Effect, h: Heap, k: Heap, l: Heap, level: nat)
    requires Acyclic(h) && Acyclic(k) && Acyclic(l) && Extends(h, k) && Extends(k, l)
    requires SettledBelow(e, h, k, level) && SettledBelow(e, k, l, level)
    ensures Extends(h, l) && SettledBelow(e, h, l, level)
  {
    forall a | a in h.arrays && h.arrays[a].level < level
      ensures Settles(e, Read(h, ArrRef(a)), Read(l, ArrRef(a)))
    {
      SettlesTransitive(e, Read(h, ArrRef(a)), Read(k, ArrRef(a)), Read(l, ArrRef(a)));
    }
    forall o | o in h.objects && h.objects[o].level < level
      ensures Settles(e, Read(h, ObjRef(o)), Read(l, ObjRef(o)))
    {
      SettlesTransitive(e, Read(h, ObjRef(o)), Read(k, ObjRef(o)), Read(l, ObjRef(o)));
    }
  }

  /** Every array is as before, or known to have settled. */
  ghost predicate ChangesSettle(e: Effect, h: Heap, k: Heap)
    requires Acyclic(h) && Acyclic(k) && Extends(h, k)
  {
    forall a {:trigger Settles(e, Read(h, ArrRef(a)), Read(k, ArrRef(a)))} ::
      a in h.arrays && k.arrays[a] != h.arrays[a] ==> Settles(e, Read(h, ArrRef(a)), Read(k, ArrRef(a)))
  }

  /** What contains settled arrays has settled. */
  lemma {:induction false} PartsSettle(e: Effect, h: Heap, k: Heap, v: Value)
    requires Lawful(e)
    requires Acyclic(h) && Acyclic(k) && Extends(h, k) && ChangesSettle(e, h, k) && Has(h, v)
    ensures Has(k, v) && Settles(e, Read(h, v), Read(k, v))
    decreases Height(h, v)
  {
    match v
    case Prim(_) =>
    case ArrRef(a) =>
      if k.arrays[a] == h.arrays[a] {
        var vs, level := h.arrays[a].items, h.arrays[a].level;
        forall i | 0 <= i < |vs| ensures Settles(e, Read(h, vs[i]), Read(k, vs[i])) {
          PartsSettle(e, h, k, vs[i]);
        }
        assert AllSettle(e, Reads(h, vs, level), Reads(k, vs, level));
      }
    case ObjRef(o) =>
      var es, level := h.objects[o].items, h.objects[o].level;
      var vs := Values(es);
      forall i | 0 <= i < |vs| ensures Settles(e, Read(h, vs[i]), Read(k, vs[i])) {
        PartsSettle(e, h, k, vs[i]);
      }
      assert MembersSettle(e, Members(es, Reads(h, vs, level)), Members(es, Reads(k, vs, level)));
  }

  lemma EverythingSettles(e: Effect, h: Heap, k: Heap)
    requires Lawful(e)
    requires Acyclic(h) && Acyclic(k) && Extends(h, k) && ChangesSettle(e, h, k)
    ensures Settled(e, h, k)
  {
    forall a | a in h.arrays ensures Settles(e, Read(h, ArrRef(a)), Read(k, ArrRef(a))) {
      PartsSettle(e, h, k, ArrRef(a));
    }
    forall o | o in h.objects ensures Settles(e, Read(h, ObjRef(o)), Read(k, ObjRef(o))) {
      PartsSettle(e, h, k, ObjRef(o));
    }
  }

  lemma SettledAllTransitive(e: Effect, h: Heap, k: Heap, l: Heap)
    requires Acyclic(h) && Acyclic(k) && Acyclic(l) && Extends(h, k) && Extends(k, l)
    requires Settled(e, h, k) && Settled(e, k, l)
    ensures Extends(h, l) && Settled(e, h, l)
  {
    forall a | a in h.arrays ensures Settles(e, Read(h, ArrRef(a)), Read(l, ArrRef(a))) {
      SettlesTransitive(e, Read(h, ArrRef(a)), Read(k, ArrRef(a)), Read(l, ArrRef(a)));
    }
    forall o | o in h.objects ensures Settles(e, Read(h, ObjRef(o)), Read(l, ObjRef(o))) {
      SettlesTransitive(e, Read(h, ObjRef(o)), Read(k, ObjRef(o)), Read(l, ObjRef(o)));
    }
  }

  // ---------- writing to an array ----------

  ghost function Put(h: Heap, a: JsArray, vs: seq<Value>): Heap
    requires a in h.arrays
  {
    h.(arrays := h.arrays[a := Node(h.arrays[a].level, vs)])
  }

  /** Only what leads to the array reads differently. */
  lemma PutReads(h: Heap, a: JsArray, vs: seq<Value>)
    requires Acyclic(h) && a in h.arrays && AllUnder(h, vs, h.arrays[a].level)
    ensures var k, level := Put(h, a, vs), h.arrays[a].level;
      && Extends(h, k) && Acyclic(k) && SameBelow(h, k, level)
      && AllUnder(k, vs, level) && Reads(k, vs, level) == Reads(h, vs, level)
      && Read(k, ArrRef(a)) == Arr(Reads(h, vs, level))
  {
    var k, level := Put(h, a, vs), h.arrays[a].level;
    forall b | b in k.arrays ensures AllUnder(k, k.arrays[b].items, k.arrays[b].level) {
      forall i | 0 <= i < |k.arrays[b].items| ensures Under(k, k.arrays[b].items[i], k.arrays[b].level) {
        assert Under(h, k.arrays[b].items[i], k.arrays[b].level);
      }
    }
    forall o | o in k.objects ensures AllUnder(k, Values(k.objects[o].items), k.objects[o].level) {
      assert AllUnder(h, Values(h.objects[o].items), h.objects[o].level);
    }
    ReadsBelow(h, k, vs, level);
  }

  lemma SameValueSettled(e: Effect, h: Heap, k: Heap, v: Value, level: nat)
    requires Acyclic(h) && Acyclic(k) && Extends(h, k) && SameBelow(h, k, level) && Under(h, v, level)
    ensures Under(k, v, level) && Settles(e, Read(h, v), Read(k, v))
  {
    ReadBelow(h, k, v, level);
  }

  /** What reads as before has settled. */
  lemma SameIsSettled(e: Effect, h: Heap, k: Heap, level: nat)
    requires Acyclic(h) && Acyclic(k) && Extends(h, k) && SameBelow(h, k, level)
    ensures SettledBelow(e, h, k, level)
  {
    forall a | a in h.arrays && h.arrays[a].level < level
      ensures Settles(e, Read(h, ArrRef(a)), Read(k, ArrRef(a)))
    {
      SameValueSettled(e, h, k, ArrRef(a), level);
    }
    forall o | o in h.objects && h.objects[o].level < level
      ensures Settles(e, Read(h, ObjRef(o)), Read(k, ObjRef(o)))
    {
      SameValueSettled(e, h, k, ObjRef(o), level);
    }
  }

  // ---------- sorting in place ----------

  function First(p: (Value, Json)): Value {
    p.0
  }

  function Second(p: (Value, Json)): Json {
    p.1
  }

  function PairOrder(order: Json -> Key): ((Value, Json)) -> Key {
    (p: (Value, Json)) => order(p.1)
  }

  function Pairs(vs: seq<Value>, js: seq<Json>): (ps: seq<(Value, Json)>)
    requires |vs| == |js|
    ensures |ps| == |vs|
    ensures forall i :: 0 <= i < |vs| ==> ps[i] == (vs[i], js[i])
  {
    seq(|js|, i requires 0 <= i < |js| => (vs[i], js[i]))
  }

  /** Values sorted by what they read as read as the sorted readings. */
  lemma MovedReads(h: Heap, vs: seq<Value>, level: nat, order: Json -> Key)
    requires Acyclic(h) && AllUnder(h, vs, level)
    ensures var js := Reads(h, vs, level);
      var moved := Map(First, SortBy(PairOrder(order), Pairs(vs, js)));
      && multiset(moved) == multiset(vs) && AllUnder(h, moved, level)
      && Reads(h, moved, level) == SortBy(order, js)
  {
    var js := Reads(h, vs, level);
    var ps := Pairs(vs, js);
    var qs := SortBy(PairOrder(order), ps);
    assert Map(First, ps) == vs && Map(Second, ps) == js;
    MapPermutes(First, qs, ps);
    SortOfMap(PairOrder(order), order, Second, ps);
    forall i | 0 <= i < |qs| ensures Under(h, qs[i].0, level) && Read(h, qs[i].0) == qs[i].1 {
      SameMembers(qs, ps, qs[i]);
      var j :| 0 <= j < |ps| && ps[j] == qs[i];
    }
    assert Reads(h, Map(First, qs), level) == Map(Second, qs);
  }

  method Write(a: JsArray, vs: seq<Value>, ghost h: Heap) returns (ghost k: Heap)
    requires Matches(h) && a in h.arrays
    modifies a
    ensures Matches(k) && k == Put(h, a, vs)
  {
    a.elems := vs;
    k := Put(h, a, vs);
  }

  /** `a.sort(...)`: the elements are compared by what the engine renders of them, and moved in place. */
  method SortElems(a: JsArray, order: Json -> Key, ghost h: Heap) returns (ghost k: Heap, ghost moved: seq<Value>)
    requires Matches(h) && Acyclic(h) && a in h.arrays
    modifies a
    ensures Matches(k) && k == Put(h, a, moved)
    ensures multiset(moved) == multiset(h.arrays[a].items) && AllUnder(h, moved, h.arrays[a].level)
    ensures Reads(h, moved, h.arrays[a].level) == SortBy(order, Reads(h, h.arrays[a].items, h.arrays[a].level))
  {
    ghost var level := h.arrays[a].level;
    MovedReads(h, a.elems, level, order);
    var js := RenderAll(a.elems, h, level);
    var sorted := Map(First, SortBy(PairOrder(order), Pairs(a.elems, js)));
    moved := sorted;
    k := Write(a, sorted, h);
  }

  // ---------- arrays ----------

  /** Arrays at or above the height of `v`, other than itself, are as before. */
  ghost predicate SameAbove(h: Heap, k: Heap, v: Value)
    requires Extends(h, k) && Has(h, v)
  {
    forall a :: a in h.arrays && ArrRef(a) != v && Height(h, ArrRef(a)) >= Height(h, v) ==> k.arrays[a] == h.arrays[a]
  }

  /** What a call on `v` does to the heap: everything has settled, and nothing beside or above `v` was written. */
  ghost predicate Later(e: Effect, h: Heap, k: Heap, v: Value)
    requires Acyclic(h) && Has(h, v)
  {
    Acyclic(k) && Extends(h, k) && Settled(e, h, k) && SameAbove(h, k, v)
  }

  /** The loop over the array has replaced the first `n` elements; `js` is what they read as before it. */
  ghost predicate SortedUpTo(e: Effect, h: Heap, k: Heap, a: JsArray, js: seq<Json>, n: nat)
    requires Acyclic(h) && a in h.arrays
  {
    && Acyclic(k) && Extends(h, k) && SettledBelow(e, h, k, h.arrays[a].level) && SameAbove(h, k, ArrRef(a))
    && |k.arrays[a].items| == |js|
    && AllUnder(k, k.arrays[a].items, h.arrays[a].level)
    && forall m :: 0 <= m < |js| ==> SortedAt(e, k, k.arrays[a].items[m], js[m], m < n)
  }

  /** An element that read as `x` has had its turn, or has settled meanwhile. */
  ghost predicate SortedAt(e: Effect, k: Heap, v: Value, x: Json, done: bool)
    requires Acyclic(k)
  {
    Has(k, v) && if done then Read(k, v) == e.result(x) else Settles(e, x, Read(k, v))
  }

  lemma FirstSorted(e: Effect, h: Heap, k: Heap, a: JsArray, moved: seq<Value>)
    requires Acyclic(h) && a in h.arrays && AllUnder(h, moved, h.arrays[a].level) && k == Put(h, a, moved)
    ensures SortedUpTo(e, h, k, a, Reads(h, moved, h.arrays[a].level), 0)
  {
    PutReads(h, a, moved);
    SameIsSettled(e, h, k, h.arrays[a].level);
  }

  /** Element `i` is replaced by `r`; of all else, what is below the array has settled, and the rest is as before. */
  ghost predicate Replaced(e: Effect, h: Heap, k: Heap, a: JsArray, i: nat, r: Value)
    requires Acyclic(h) && a in h.arrays && i < |h.arrays[a].items|
  {
    && Acyclic(k) && Extends(h, k) && SettledBelow(e, h, k, h.arrays[a].level) && SameAbove(h, k, ArrRef(a))
    && k.arrays[a].items == h.arrays[a].items[i := r]
    && AllUnder(k, k.arrays[a].items, h.arrays[a].level)
  }

  /** What one turn of the loop does. */
  ghost predicate Turn(e: Effect, h: Heap, k: Heap, a: JsArray, i: nat, r: Value)
    requires Acyclic(h) && a in h.arrays && i < |h.arrays[a].items|
  {
    && Replaced(e, h, k, a, i, r) && Has(k, r) && Has(h, h.arrays[a].items[i])
    && Read(k, r) == e.result(Read(h, h.arrays[a].items[i]))
  }

  /** Writing to an array that the calls so far have left alone. */
  lemma WriteSettles(e: Effect, h: Heap, l: Heap, k: Heap, a: JsArray, vs: seq<Value>)
    requires Acyclic(h) && Acyclic(l) && Extends(h, l) && a in h.arrays
    requires SettledBelow(e, h, l, h.arrays[a].level) && SameFrom(h, l, h.arrays[a].level)
    requires AllUnder(l, vs, h.arrays[a].level) && k == Put(l, a, vs)
    ensures Acyclic(k) && Extends(h, k) && SettledBelow(e, h, k, h.arrays[a].level) && SameAbove(h, k, ArrRef(a))
    ensures AllUnder(k, vs, h.arrays[a].level) && Reads(k, vs, h.arrays[a].level) == Reads(l, vs, h.arrays[a].level)
  {
    var level := h.arrays[a].level;
    PutReads(l, a, vs);
    SameIsSettled(e, l, k, level);
    SettledTransitive(e, h, l, k, level);
  }

  lemma ReplacedBy(e: Effect, h: Heap, l: Heap, k: Heap, a: JsArray, i: nat, r: Value)
    requires Acyclic(h) && a in h.arrays && i < |h.arrays[a].items| && Under(h, h.arrays[a].items[i], h.arrays[a].level)
    requires Later(e, h, l, h.arrays[a].items[i]) && Under(l, r, h.arrays[a].level)
    requires k == Put(l, a, h.arrays[a].items[i := r])
    ensures l.arrays[a] == h.arrays[a] && Replaced(e, h, k, a, i, r) && Has(k, r) && Read(k, r) == Read(l, r)
  {
    var vs, level := h.arrays[a].items, h.arrays[a].level;
    var ws := vs[i := r];
    BesideElement(h, l, vs[i], level);
    ReplacedUnder(h, l, vs, i, r, level);
    SettledFromAll(e, h, l, level);
    WriteSettles(e, h, l, k, a, ws);
    ReadAt(l, k, ws, level, i);
  }

  lemma TurnDone(e: Effect, h: Heap, l: Heap, k: Heap, a: JsArray, i: nat, r: Value)
    requires Acyclic(h) && a in h.arrays && i < |h.arrays[a].items|
    requires Returned(e, h, l, h.arrays[a].items[i], r)
    requires k == Put(l, a, h.arrays[a].items[i := r])
    ensures l.arrays[a] == h.arrays[a] && Turn(e, h, k, a, i, r)
  {
    assert Under(h, h.arrays[a].items[i], h.arrays[a].level);
    ReplacedBy(e, h, l, k, a, i, r);
  }

  lemma ReadAt(h: Heap, k: Heap, vs: seq<Value>, level: nat, i: nat)
    requires Acyclic(h) && Acyclic(k) && AllUnder(h, vs, level) && AllUnder(k, vs, level) && i < |vs|
    requires Reads(k, vs, level) == Reads(h, vs, level)
    ensures Read(k, vs[i]) == Read(h, vs[i])
  {
    assert Reads(k, vs, level)[i] == Reads(h, vs, level)[i];
  }

  /** Arrays from the level on are as before. */
  ghost predicate SameFrom(h: Heap, k: Heap, level: nat)
    requires Extends(h, k)
  {
    forall a :: a in h.arrays && h.arrays[a].level >= level ==> k.arrays[a] == h.arrays[a]
  }

  lemma BesideElement(h: Heap, l: Heap, v: Value, level: nat)
    requires Extends(h, l) && Under(h, v, level) && SameAbove(h, l, v)
    ensures SameFrom(h, l, level)
  {
    forall a | a in h.arrays && h.arrays[a].level >= level ensures l.arrays[a] == h.arrays[a] {
      assert Height(h, ArrRef(a)) > Height(h, v);
    }
  }

  lemma ReplacedUnder(h: Heap, l: Heap, vs: seq<Value>, i: nat, r: Value, level: nat)
    requires Extends(h, l) && AllUnder(h, vs, level) && i < |vs| && Under(l, r, level)
    ensures AllUnder(l, vs[i := r], level)
  {
    var ws := vs[i := r];
    forall m | 0 <= m < |ws| ensures Under(l, ws[m], level) {
      if m != i {
        ExtendsHas(h, l, vs[m]);
      }
    }
  }

  lemma SettledFromAll(e: Effect, h: Heap, k: Heap, level: nat)
    requires Acyclic(h) && Acyclic(k) && Extends(h, k) && Settled(e, h, k)
    ensures SettledBelow(e, h, k, level)
  {
  }

  lemma TurnKeeps(e: Effect, h: Heap, k: Heap, l: Heap, a: JsArray, js: seq<Json>, i: nat, r: Value)
    requires Lawful(e)
    requires Acyclic(h) && a in h.arrays && i < |js| && SortedUpTo(e, h, k, a, js, i) && Turn(e, k, l, a, i, r)
    ensures SortedUpTo(e, h, l, a, js, i + 1)
  {
    var level, vs := h.arrays[a].level, k.arrays[a].items;
    SettledTransitive(e, h, k, l, level);
    forall m | 0 <= m < |js| ensures SortedAt(e, l, l.arrays[a].items[m], js[m], m < i + 1) {
      if m == i {
        SettlesSameResult(e, js[m], Read(k, vs[m]));
      } else {
        SettledValue(e, k, l, vs[m], level);
        SortedAtStays(e, k, l, vs[m], js[m], m < i);
      }
    }
  }

  lemma SortedAtStays(e: Effect, k: Heap, l: Heap, v: Value, x: Json, done: bool)
    requires Lawful(e)
    requires Acyclic(k) && Acyclic(l) && Has(k, v) && Has(l, v) && Settles(e, Read(k, v), Read(l, v))
    requires SortedAt(e, k, v, x, done)
    ensures SortedAt(e, l, v, x, done)
  {
    if !done {
      SettlesTransitive(e, x, Read(k, v), Read(l, v));
    }
  }

  /** Two sorts around the loop are `sortObj` of the array. */
  lemma LastSorted(lower: Lowering, e: Effect, h: Heap, k: Heap, l: Heap, a: JsArray, js: seq<Json>, moved: seq<Value>)
    requires Lawful(e) && Sorts(lower, e)
    requires Acyclic(h) && a in h.arrays && SortedUpTo(e, h, k, a, js, |js|)
    requires js == SortBy(DefaultOrder, Reads(h, h.arrays[a].items, h.arrays[a].level))
    requires l == Put(k, a, moved) && AllUnder(k, moved, k.arrays[a].level)
    requires Reads(k, moved, k.arrays[a].level) == SortBy(TextOrder, Reads(k, k.arrays[a].items, k.arrays[a].level))
    ensures Returned(e, h, l, ArrRef(a), ArrRef(a))
  {
    var level := h.arrays[a].level;
    LoopReads(e, h, k, a, js);
    PutReads(k, a, moved);
    SameIsSettled(e, k, l, level);
    SettledTransitive(e, h, k, l, level);
    ArraySettled(lower, e, h, l, a);
  }

  lemma LoopReads(e: Effect, h: Heap, k: Heap, a: JsArray, js: seq<Json>)
    requires Acyclic(h) && a in h.arrays && SortedUpTo(e, h, k, a, js, |js|)
    ensures AllUnder(k, k.arrays[a].items, k.arrays[a].level)
    ensures Reads(k, k.arrays[a].items, k.arrays[a].level) == Map(e.result, js)
  {
    var ys := Reads(k, k.arrays[a].items, k.arrays[a].level);
    forall m | 0 <= m < |js| ensures ys[m] == e.result(js[m]) {
      assert SortedAt(e, k, k.arrays[a].items[m], js[m], true);
    }
  }

  /** With the array sorted, all below it settled and nothing beside or above it written, everything has settled. */
  lemma ArraySettled(lower: Lowering, e: Effect, h: Heap, l: Heap, a: JsArray)
    requires Lawful(e) && Sorts(lower, e)
    requires Acyclic(h) && Acyclic(l) && Extends(h, l) && a in h.arrays
    requires SettledBelow(e, h, l, h.arrays[a].level) && SameAbove(h, l, ArrRef(a))
    requires Read(l, ArrRef(a)) == e.result(Read(h, ArrRef(a)))
    ensures Returned(e, h, l, ArrRef(a), ArrRef(a))
  {
    var x := Read(h, ArrRef(a));
    assert e.left(x) == e.result(x) by { assert x == Arr(x.elems); }
    assert Settles(e, x, e.result(x));
    forall b | b in h.arrays && l.arrays[b] != h.arrays[b] ensures Settles(e, Read(h, ArrRef(b)), Read(l, ArrRef(b))) {
      assert b == a || h.arrays[b].level < h.arrays[a].level;
    }
    EverythingSettles(e, h, l);
  }

  /** What a call on `v` returned, and did to the heap. */
  ghost predicate Returned(e: Effect, h: Heap, k: Heap, v: Value, r: Value) {
    && Acyclic(h) && Has(h, v) && Later(e, h, k, v)
    && Has(k, r) && Height(k, r) <= Height(h, v)
    && Read(k, r) == e.result(Read(h, v)) && Read(k, v) == e.left(Read(h, v))
  }

  method SortObj(lower: Lowering, v: Value, ghost h: Heap) returns (r: Value, ghost k: Heap)
    requires Matches(h) && Acyclic(h) && Has(h, v)
    modifies h.arrays.Keys
    ensures Returned(EffectOf(lower), h, k, v, r) && Matches(k) && fresh(k.objects.Keys - h.objects.Keys)
    ensures Read(k, r) == JsonAbc.SortObj(lower, Read(h, v)) && Read(k, v) == After(lower, Read(h, v))
    decreases Height(h, v), 3
  {
    match v
    case Prim(p) =>
      k := h;
      PrimReturned(lower, h, p);
      return v, k;
    case ArrRef(a) =>
      k := SortArray(lower, a, h);
      return v, k;
    case ObjRef(o) =>
      var or;
      or, k := SortObject(lower, o, h);
      return ObjRef(or), k;
  }

  lemma PrimReturned(lower: Lowering, h: Heap, p: Primitive)
    requires Acyclic(h)
    ensures Returned(EffectOf(lower), h, h, Prim(p), Prim(p))
  {
    EffectLawful(lower);
    EffectIs(lower, p);
    EverythingSettles(EffectOf(lower), h, h);
  }

  /** One turn of the loop `or[i] = sortObj(or[i])`. */
  method SortElement(lower: Lowering, a: JsArray, i: nat, ghost h: Heap) returns (r: Value, ghost k: Heap)
    requires Matches(h) && Acyclic(h) && a in h.arrays && i < |h.arrays[a].items|
    modifies h.arrays.Keys
    ensures Turn(EffectOf(lower), h, k, a, i, r) && Matches(k) && fresh(k.objects.Keys - h.objects.Keys)
    decreases Height(h, ArrRef(a)), 1
  {
    ghost var vs := h.arrays[a].items;
    assert Under(h, vs[i], h.arrays[a].level);
    ghost var l;
    r, l := SortObj(lower, a.elems[i], h);
    TurnDone(EffectOf(lower), h, l, Put(l, a, vs[i := r]), a, i, r);
    k := Write(a, a.elems[i := r], l);
  }

  method SortArray(lower: Lowering, a: JsArray, ghost h: Heap) returns (ghost k: Heap)
    requires Matches(h) && Acyclic(h) && a in h.arrays
    modifies h.arrays.Keys
    ensures Returned(EffectOf(lower), h, k, ArrRef(a), ArrRef(a))
    ensures Matches(k) && fresh(k.objects.Keys - h.objects.Keys)
    decreases Height(h, ArrRef(a)), 2
  {
    ghost var moved;
    k, moved := SortElems(a, DefaultOrder, h);
    ghost var js := Reads(h, moved, h.arrays[a].level);
    FirstSorted(EffectOf(lower), h, k, a, moved);
    for i := 0 to |a.elems|
      invariant SortedUpTo(EffectOf(lower), h, k, a, js, i) && Matches(k)
      invariant fresh(k.objects.Keys - h.objects.Keys)
    {
      var r;
      ghost var l;
      r, l := SortElement(lower, a, i, k);
      ElementDone(lower, h, k, l, a, js, i, r);
      k := l;
    }
    ghost var l := k;
    k, moved := SortElems(a, TextOrder, l);
    ArrayDone(lower, h, l, k, a, js, moved);
  }

  lemma ElementDone(lower: Lowering, h: Heap, k: Heap, l: Heap, a: JsArray, js: seq<Json>, i: nat, r: Value)
    requires Acyclic(h) && a in h.arrays && i < |js|
    requires SortedUpTo(EffectOf(lower), h, k, a, js, i) && Turn(EffectOf(lower), k, l, a, i, r)
    ensures SortedUpTo(EffectOf(lower), h, l, a, js, i + 1)
  {
    EffectLawful(lower);
    TurnKeeps(EffectOf(lower), h, k, l, a, js, i, r);
  }

  lemma ArrayDone(lower: Lowering, h: Heap, k: Heap, l: Heap, a: JsArray, js: seq<Json>, moved: seq<Value>)
    requires Acyclic(h) && a in h.arrays && SortedUpTo(EffectOf(lower), h, k, a, js, |js|)
    requires js == SortBy(DefaultOrder, Reads(h, h.arrays[a].items, h.arrays[a].level))
    requires l == Put(k, a, moved) && AllUnder(k, moved, k.arrays[a].level)
    requires Reads(k, moved, k.arrays[a].level) == SortBy(TextOrder, Reads(k, k.arrays[a].items, k.arrays[a].level))
    ensures Returned(EffectOf(lower), h, l, ArrRef(a), ArrRef(a))
  {
    EffectLawful(lower);
    EffectSorts(lower);
    LastSorted(lower, EffectOf(lower), h, k, l, a, js, moved);
  }

  // ---------- objects ----------

  /** The positions of `n` entries. */
  function Positions(n: nat): (s: seq<int>)
    ensures |s| == n
    ensures forall i :: 0 <= i < n ==> s[i] == i
  {
    seq(n, i => i)
  }

  function PositionOrder(lower: Lowering, keys: seq<string>): int -> Key {
    (i: int) => if 0 <= i < |keys| then Codes(lower(keys[i])) else []
  }

  function KeysOf(es: seq<Entry>): (ks: seq<string>)
    ensures |ks| == |es|
    ensures forall i :: 0 <= i < |es| ==> ks[i] == es[i].key
  {
    seq(|es|, i requires 0 <= i < |es| => es[i].key)
  }

  /** The positions in the order in which `Object.keys(un).sort(...)` visits them: each once. */
  function VisitOrder(lower: Lowering, keys: seq<string>): (order: seq<int>)
    ensures |order| == |keys|
    ensures forall i :: 0 <= i < |order| ==> 0 <= order[i] < |keys|
    ensures forall i, j :: 0 <= i < j < |order| ==> order[i] != order[j]
    ensures forall k :: 0 <= k < |keys| ==> k in order
  {
    var ps := Positions(|keys|);
    var order := SortBy(PositionOrder(lower, keys), ps);
    VisitsOnce(ps, order);
    order
  }

  lemma VisitsOnce(ps: seq<int>, order: seq<int>)
    requires ps == Positions(|ps|) && multiset(order) == multiset(ps)
    ensures forall i :: 0 <= i < |order| ==> 0 <= order[i] < |ps|
    ensures forall i, j :: 0 <= i < j < |order| ==> order[i] != order[j]
    ensures forall k :: 0 <= k < |ps| ==> k in order
  {
    forall k | 0 <= k < |ps| ensures k in order {
      assert ps[k] == k;
      SameMembers(order, ps, k);
    }
    forall i | 0 <= i < |order| ensures 0 <= order[i] < |ps| {
      SameMembers(order, ps, order[i]);
    }
    var differ := (i: int, j: int) => i != j;
    PairwisePermute(differ, ps, order);
    forall i, j | 0 <= i < j < |order| ensures order[i] != order[j] { assert differ(order[i], order[j]); }
  }

  function MemberAt(ms: seq<Member>): int -> Member {
    (i: int) => if 0 <= i < |ms| then ms[i] else Member("", Null)
  }

  lemma VisitSorts(lower: Lowering, keys: seq<string>, ms: seq<Member>)
    requires |keys| == |ms| && forall i :: 0 <= i < |ms| ==> ms[i].key == keys[i]
    ensures Map(MemberAt(ms), VisitOrder(lower, keys)) == SortBy(LowerOrder(lower), ms)
  {
    var ps := Positions(|keys|);
    assert Map(MemberAt(ms), ps) == ms;
    SortOfMap(PositionOrder(lower, keys), LowerOrder(lower), MemberAt(ms), ps);
  }

  /** One visit: the key is kept, the value sorted, and the argument's value left as its own sort leaves it. */
  ghost predicate VisitedAt(e: Effect, h: Heap, k: Heap, from: Entry, to: Entry, level: nat)
    requires Acyclic(h) && Acyclic(k) && Extends(h, k)
  {
    && to.key == from.key && Under(h, from.value, level) && Under(k, to.value, level)
    && Read(k, to.value) == e.result(Read(h, from.value))
    && Read(k, from.value) == e.left(Read(h, from.value))
  }

  /** The entries `es` come from visits to `xs`. */
  ghost predicate AllVisited(e: Effect, h: Heap, k: Heap, xs: seq<Entry>, es: seq<Entry>, level: nat)
    requires Acyclic(h) && Acyclic(k) && Extends(h, k) && |xs| == |es|
  {
    forall j {:trigger VisitedAt(e, h, k, xs[j], es[j], level)} :: 0 <= j < |es| ==>
      VisitedAt(e, h, k, xs[j], es[j], level)
  }

  /** The entries in the order of the visits. */
  ghost function Ordered(xs: seq<Entry>, order: seq<int>): (ys: seq<Entry>)
    requires forall j :: 0 <= j < |order| ==> 0 <= order[j] < |xs|
    ensures |ys| == |order|
    ensures forall j :: 0 <= j < |order| ==> ys[j] == xs[order[j]]
  {
    seq(|order|, j requires 0 <= j < |order| => xs[order[j]])
  }

  /** After `n` of the visits to `ys`: what the new object holds so far, and what became of the heap. */
  ghost predicate Filling(e: Effect, h: Heap, k: Heap, o: JsObject, ys: seq<Entry>, es: seq<Entry>, n: nat)
    requires Acyclic(h) && o in h.objects
  {
    Later(e, h, k, ObjRef(o)) && |es| == n <= |ys| && AllVisited(e, h, k, ys[..n], es, h.objects[o].level)
  }

  lemma EntryUnder(h: Heap, o: JsObject, p: int)
    requires Acyclic(h) && o in h.objects && 0 <= p < |h.objects[o].items|
    ensures Under(h, h.objects[o].items[p].value, h.objects[o].level)
  {
    assert Under(h, Values(h.objects[o].items)[p], h.objects[o].level);
  }

  lemma LaterTransitive(e: Effect, h: Heap, k: Heap, l: Heap, o: JsObject, v: Value)
    requires Acyclic(h) && o in h.objects && Later(e, h, k, ObjRef(o))
    requires Under(k, v, h.objects[o].level) && Later(e, k, l, v)
    ensures Later(e, h, l, ObjRef(o))
  {
    SettledAllTransitive(e, h, k, l);
    SameAboveTransitive(h, k, l, o, v);
  }

  lemma SameAboveTransitive(h: Heap, k: Heap, l: Heap, o: JsObject, v: Value)
    requires Extends(h, k) && Extends(k, l) && Extends(h, l) && o in h.objects && Under(k, v, h.objects[o].level)
    requires SameAbove(h, k, ObjRef(o)) && SameAbove(k, l, v)
    ensures SameAbove(h, l, ObjRef(o))
  {
    BesideElement(k, l, v, h.objects[o].level);
  }

  /** An earlier visit is not undone by a later call. */
  lemma VisitStays(e: Effect, h: Heap, k: Heap, l: Heap, from: Entry, to: Entry, level: nat)
    requires Lawful(e)
    requires Acyclic(h) && Acyclic(k) && Acyclic(l)
    requires Extends(h, k) && Extends(k, l) && Extends(h, l) && Settled(e, k, l)
    requires VisitedAt(e, h, k, from, to, level)
    ensures VisitedAt(e, h, l, from, to, level)
  {
    PartOfSettled(e, k, l, to.value);
    PartOfSettled(e, k, l, from.value);
  }

  lemma PartOfSettled(e: Effect, h: Heap, k: Heap, v: Value)
    requires Acyclic(h) && Acyclic(k) && Extends(h, k) && Settled(e, h, k) && Has(h, v)
    ensures Has(k, v) && Height(k, v) == Height(h, v) && Settles(e, Read(h, v), Read(k, v))
  {
  }

  lemma VisitNew(e: Effect, h: Heap, k: Heap, l: Heap, x: Entry, level: nat, r: Value)
    requires Lawful(e)
    requires Acyclic(h) && Acyclic(k) && Extends(h, k) && Settled(e, h, k) && Under(h, x.value, level)
    requires Has(k, x.value) && Returned(e, k, l, x.value, r)
    ensures Extends(h, l) && Acyclic(l) && VisitedAt(e, h, l, x, Entry(x.key, r), level)
  {
    PartOfSettled(e, h, k, x.value);
    SettlesSameResult(e, Read(h, x.value), Read(k, x.value));
  }

  lemma VisitsStay(e: Effect, h: Heap, k: Heap, l: Heap, xs: seq<Entry>, es: seq<Entry>, level: nat)
    requires Lawful(e)
    requires Acyclic(h) && Acyclic(k) && Acyclic(l)
    requires Extends(h, k) && Extends(k, l) && Extends(h, l) && Settled(e, k, l)
    requires |xs| == |es| && AllVisited(e, h, k, xs, es, level)
    ensures AllVisited(e, h, l, xs, es, level)
  {
    forall j | 0 <= j < |es| ensures VisitedAt(e, h, l, xs[j], es[j], level) {
      VisitStays(e, h, k, l, xs[j], es[j], level);
    }
  }

  lemma VisitsAppend(e: Effect, h: Heap, l: Heap, ys: seq<Entry>, es: seq<Entry>, i: nat, x: Entry, level: nat)
    requires Acyclic(h) && Acyclic(l) && Extends(h, l) && |es| == i < |ys|
    requires AllVisited(e, h, l, ys[..i], es, level) && VisitedAt(e, h, l, ys[i], x, level)
    ensures AllVisited(e, h, l, ys[..i + 1], es + [x], level)
  {
    var fs := es + [x];
    forall j | 0 <= j < |fs| ensures VisitedAt(e, h, l, ys[..i + 1][j], fs[j], level) {
      assert j < i ==> VisitedAt(e, h, l, ys[..i][j], es[j], level);
    }
  }

  lemma VisitDone(e: Effect, h: Heap, k: Heap, l: Heap, o: JsObject, ys: seq<Entry>, es: seq<Entry>, i: nat, r: Value)
    requires Lawful(e)
    requires Acyclic(h) && o in h.objects && i < |ys| && Filling(e, h, k, o, ys, es, i)
    requires Under(h, ys[i].value, h.objects[o].level) && Returned(e, k, l, ys[i].value, r)
    ensures Filling(e, h, l, o, ys, es + [Entry(ys[i].key, r)], i + 1)
  {
    var level, v := h.objects[o].level, ys[i].value;
    ExtendsHas(h, k, v);
    LaterTransitive(e, h, k, l, o, v);
    VisitNew(e, h, k, l, ys[i], level, r);
    VisitsStay(e, h, k, l, ys[..i], es, level);
    VisitsAppend(e, h, l, ys, es, i, Entry(ys[i].key, r), level);
  }

  // ---------- the new object ----------

  ghost function Add(h: Heap, o: JsObject, n: Node<Entry>): Heap
    requires o !in h.objects
  {
    h.(objects := h.objects[o := n])
  }

  lemma AddReads(e: Effect, h: Heap, o: JsObject, n: Node<Entry>)
    requires Lawful(e) && Acyclic(h) && o !in h.objects && AllUnder(h, Values(n.items), n.level)
    ensures var k := Add(h, o, n);
      && Extends(h, k) && Acyclic(k) && Settled(e, h, k)
      && AllUnder(k, Values(n.items), n.level)
      && Reads(k, Values(n.items), n.level) == Reads(h, Values(n.items), n.level)
  {
    var k := Add(h, o, n);
    forall a | a in k.arrays ensures AllUnder(k, k.arrays[a].items, k.arrays[a].level) {
      assert AllUnder(h, h.arrays[a].items, h.arrays[a].level);
    }
    forall p | p in k.objects ensures AllUnder(k, Values(k.objects[p].items), k.objects[p].level) {
      assert AllUnder(h, Values(k.objects[p].items), k.objects[p].level);
    }
    ReadsBelow(h, k, Values(n.items), n.level);
    EverythingSettles(e, h, k);
  }

  lemma FillStart(lower: Lowering, h: Heap, o: JsObject, ys: seq<Entry>)
    requires Acyclic(h) && o in h.objects
    ensures Filling(EffectOf(lower), h, h, o, ys, [], 0)
  {
    EffectLawful(lower);
    EverythingSettles(EffectOf(lower), h, h);
  }

  lemma NextField(e: Effect, h: Heap, k: Heap, o: JsObject, order: seq<int>, ys: seq<Entry>, es: seq<Entry>, i: nat)
    requires Acyclic(h) && o in h.objects && Filling(e, h, k, o, ys, es, i) && i < |order|
    requires forall j :: 0 <= j < |order| ==> 0 <= order[j] < |h.objects[o].items|
    requires ys == Ordered(h.objects[o].items, order)
    ensures k.objects[o] == h.objects[o] && ys[i] == h.objects[o].items[order[i]]
    ensures Under(h, ys[i].value, h.objects[o].level)
  {
    EntryUnder(h, o, order[i]);
  }

  /** The entries of the object in the order of the visits. */
  ghost function Visits(lower: Lowering, es: seq<Entry>): (ys: seq<Entry>)
    ensures |ys| == |es|
  {
    Ordered(es, VisitOrder(lower, KeysOf(es)))
  }

  lemma FieldDone(lower: Lowering, h: Heap, k: Heap, l: Heap, o: JsObject, ys: seq<Entry>, es: seq<Entry>, r: Value)
    requires Acyclic(h) && o in h.objects && |es| < |ys| && Filling(EffectOf(lower), h, k, o, ys, es, |es|)
    requires Under(h, ys[|es|].value, h.objects[o].level) && Returned(EffectOf(lower), k, l, ys[|es|].value, r)
    ensures Filling(EffectOf(lower), h, l, o, ys, es + [Entry(ys[|es|].key, r)], |es| + 1)
  {
    EffectLawful(lower);
    VisitDone(EffectOf(lower), h, k, l, o, ys, es, |es|, r);
  }

  function EntryRank(x: Entry): Key {
    IndexRank(x.key)
  }

  /** The entries in the order in which an object enumerates them. */
  function Enumerated(es: seq<Entry>): (fs: seq<Entry>)
    ensures |fs| == |es|
  {
    SortBy(EntryRank, es)
  }

  /** The callback of `forEach`: `or[key] = sortObj(un[key])`; `es` is what was assigned so far, visit by visit. */
  method SortField(lower: Lowering, o: JsObject, or: JsObject, p: int,
                   ghost h: Heap, ghost k: Heap, ghost ys: seq<Entry>, ghost es: seq<Entry>)
    returns (ghost l: Heap, ghost fs: seq<Entry>)
    requires Acyclic(h) && o in h.objects && Filling(EffectOf(lower), h, k, o, ys, es, |es|)
    requires |es| < |ys| && 0 <= p < |o.entries| && ys[|es|] == o.entries[p]
    requires Under(h, o.entries[p].value, h.objects[o].level)
    requires Matches(k) && or !in k.objects && or.entries == Enumerated(es)
    modifies or, k.arrays.Keys
    ensures Matches(l) && or !in l.objects && fresh(l.objects.Keys - k.objects.Keys)
    ensures |fs| == |es| + 1 && Filling(EffectOf(lower), h, l, o, ys, fs, |fs|) && or.entries == Enumerated(fs)
    decreases Height(h, ObjRef(o)), 0
  {
    var key, r := o.entries[p].key, o.entries[p].value;
    assert Has(k, r) && Height(k, r) < Height(h, ObjRef(o)) by { ExtendsHas(h, k, r); }
    r, l := SortObj(lower, r, k);
    FieldDone(lower, h, k, l, o, ys, es, r);
    fs := es + [Entry(key, r)];
    Assign(or, key, r, l, es);
  }

  /** `or[key] = r` for a key that is not there yet, on an object outside the recorded part of the heap. */
  method Assign(or: JsObject, key: string, r: Value, ghost h: Heap, ghost es: seq<Entry>)
    requires Matches(h) && or !in h.objects && or.entries == Enumerated(es)
    modifies or
    ensures Matches(h) && or.entries == Enumerated(es + [Entry(key, r)])
  {
    SortAppend(EntryRank, es, Entry(key, r));
    or.entries := Enumerated(or.entries + [Entry(key, r)]);
  }

  /** The `forEach` over the keys in the order given. */
  method FillObject(lower: Lowering, o: JsObject, or: JsObject, order: seq<int>, ghost h: Heap)
    returns (ghost k: Heap, ghost es: seq<Entry>)
    requires Matches(h) && Acyclic(h) && o in h.objects && or !in h.objects && or.entries == []
    requires forall j :: 0 <= j < |order| ==> 0 <= order[j] < |o.entries|
    modifies or, h.arrays.Keys
    ensures Matches(k) && or !in k.objects && fresh(k.objects.Keys - h.objects.Keys)
    ensures Filling(EffectOf(lower), h, k, o, Ordered(h.objects[o].items, order), es, |order|)
    ensures or.entries == Enumerated(es)
    decreases Height(h, ObjRef(o)), 1
  {
    ghost var ys := Ordered(h.objects[o].items, order);
    k, es := h, [];
    FillStart(lower, h, o, ys);
    for i := 0 to |order|
      invariant Matches(k) && or !in k.objects && fresh(k.objects.Keys - h.objects.Keys)
      invariant |es| == i && Filling(EffectOf(lower), h, k, o, ys, es, i)
      invariant or.entries == Enumerated(es)
    {
      NextField(EffectOf(lower), h, k, o, order, ys, es, i);
      k, es := SortField(lower, o, or, order[i], h, k, ys, es);
    }
  }

  method SortObject(lower: Lowering, o: JsObject, ghost h: Heap) returns (or: JsObject, ghost k: Heap)
    requires Matches(h) && Acyclic(h) && o in h.objects
    modifies h.arrays.Keys
    ensures Returned(EffectOf(lower), h, k, ObjRef(o), ObjRef(or)) && Matches(k)
    ensures fresh(or) && fresh(k.objects.Keys - h.objects.Keys)
    decreases Height(h, ObjRef(o)), 2
  {
    or := new JsObject();
    var order := VisitOrder(lower, KeysOf(o.entries));
    ghost var l, es := FillObject(lower, o, or, order, h);
    k := Add(l, or, Node(h.objects[o].level, or.entries));
    ObjectDone(lower, h, l, k, o, or, es);
  }

  lemma ObjectDone(lower: Lowering, h: Heap, l: Heap, k: Heap, o: JsObject, or: JsObject, es: seq<Entry>)
    requires Acyclic(h) && o in h.objects && or !in l.objects
    requires Filling(EffectOf(lower), h, l, o, Visits(lower, h.objects[o].items), es, |h.objects[o].items|)
    requires k == Add(l, or, Node(h.objects[o].level, Enumerated(es)))
    ensures Returned(EffectOf(lower), h, k, ObjRef(o), ObjRef(or))
  {
    EffectLawful(lower);
    EffectSorts(lower);
    FillEnd(lower, EffectOf(lower), h, l, k, o, or, es);
  }

  lemma FilledUnder(e: Effect, h: Heap, k: Heap, xs: seq<Entry>, es: seq<Entry>, level: nat)
    requires Acyclic(h) && Acyclic(k) && Extends(h, k) && |xs| == |es| && AllVisited(e, h, k, xs, es, level)
    ensures AllUnder(k, Values(es), level)
  {
    forall j | 0 <= j < |es| ensures Under(k, Values(es)[j], level) {
      assert VisitedAt(e, h, k, xs[j], es[j], level);
    }
  }

  /** What the new object reads as: the members in the order of the visits, each with its result. */
  lemma FilledReads(e: Effect, h: Heap, k: Heap, items: seq<Entry>, order: seq<int>, es: seq<Entry>, level: nat)
    requires Acyclic(h) && Acyclic(k) && Extends(h, k)
    requires forall j :: 0 <= j < |order| ==> 0 <= order[j] < |items|
    requires |order| == |es| && AllVisited(e, h, k, Ordered(items, order), es, level)
    requires AllUnder(h, Values(items), level) && AllUnder(k, Values(es), level)
    ensures var ms := Members(items, Reads(h, Values(items), level));
      Members(es, Reads(k, Values(es), level)) == Map(OnValue(e.result), Map(MemberAt(ms), order))
  {
    var ms := Members(items, Reads(h, Values(items), level));
    var ns, ns' := Members(es, Reads(k, Values(es), level)), Map(OnValue(e.result), Map(MemberAt(ms), order));
    forall j | 0 <= j < |es| ensures ns[j] == ns'[j] {
      assert VisitedAt(e, h, k, Ordered(items, order)[j], es[j], level);
      assert Map(MemberAt(ms), order)[j] == ms[order[j]];
    }
  }

  /** What the argument reads as: its own members, each as its sort leaves it. */
  lemma LeftReads(e: Effect, h: Heap, k: Heap, items: seq<Entry>, order: seq<int>, es: seq<Entry>, level: nat)
    requires Acyclic(h) && Acyclic(k) && Extends(h, k)
    requires (forall j :: 0 <= j < |order| ==> 0 <= order[j] < |items|) && forall p :: 0 <= p < |items| ==> p in order
    requires |order| == |es| && AllVisited(e, h, k, Ordered(items, order), es, level)
    requires AllUnder(h, Values(items), level) && AllUnder(k, Values(items), level)
    ensures var ms := Members(items, Reads(h, Values(items), level));
      Members(items, Reads(k, Values(items), level)) == Map(OnValue(e.left), ms)
  {
    var ms := Members(items, Reads(h, Values(items), level));
    var ns, ns' := Members(items, Reads(k, Values(items), level)), Map(OnValue(e.left), ms);
    forall p | 0 <= p < |items| ensures ns[p] == ns'[p] {
      assert p in order;
      var j :| 0 <= j < |order| && order[j] == p;
      assert VisitedAt(e, h, k, Ordered(items, order)[j], es[j], level);
    }
  }

  lemma AddLater(e: Effect, h: Heap, l: Heap, k: Heap, o: JsObject, or: JsObject, n: Node<Entry>)
    requires Lawful(e) && Acyclic(h) && o in h.objects && Later(e, h, l, ObjRef(o))
    requires or !in l.objects && AllUnder(l, Values(n.items), n.level) && k == Add(l, or, n)
    ensures Later(e, h, k, ObjRef(o)) && Extends(l, k)
    ensures AllUnder(k, Values(n.items), n.level)
    ensures Reads(k, Values(n.items), n.level) == Reads(l, Values(n.items), n.level)
  {
    AddReads(e, l, or, n);
    SettledAllTransitive(e, h, l, k);
  }

  function EntryOf(p: (Entry, Json)): Entry {
    p.0
  }

  function AsMember(p: (Entry, Json)): Member {
    Member(p.0.key, p.1)
  }

  function PairRank(p: (Entry, Json)): Key {
    IndexRank(p.0.key)
  }

  function EntryPairs(es: seq<Entry>, js: seq<Json>): (ps: seq<(Entry, Json)>)
    requires |es| == |js|
    ensures |ps| == |es|
    ensures forall i :: 0 <= i < |es| ==> ps[i] == (es[i], js[i])
  {
    seq(|es|, i requires 0 <= i < |es| => (es[i], js[i]))
  }

  /** Enumerated entries read as the enumerated members. */
  lemma EnumeratedReads(h: Heap, es: seq<Entry>, level: nat)
    requires Acyclic(h) && AllUnder(h, Values(es), level)
    ensures var fs := Enumerated(es);
      && AllUnder(h, Values(fs), level)
      && Members(fs, Reads(h, Values(fs), level)) == SortBy(IndexOrder, Members(es, Reads(h, Values(es), level)))
  {
    var js := Reads(h, Values(es), level);
    var ps := EntryPairs(es, js);
    var fs, qs := Enumerated(es), SortBy(PairRank, ps);
    assert Map(EntryOf, ps) == es && Map(AsMember, ps) == Members(es, js);
    SortOfMap(PairRank, EntryRank, EntryOf, ps);
    SortOfMap(PairRank, IndexOrder, AsMember, ps);
    assert fs == Map(EntryOf, qs);
    forall i | 0 <= i < |qs| ensures Under(h, qs[i].0.value, level) && Read(h, qs[i].0.value) == qs[i].1 {
      SameMembers(qs, ps, qs[i]);
      var j :| 0 <= j < |ps| && ps[j] == qs[i];
      assert Under(h, Values(es)[j], level);
    }
    assert AllUnder(h, Values(fs), level);
    assert Members(fs, Reads(h, Values(fs), level)) == Map(AsMember, qs);
  }

  lemma FillEnd(lower: Lowering, e: Effect, h: Heap, l: Heap, k: Heap, o: JsObject, or: JsObject, es: seq<Entry>)
    requires Lawful(e) && Sorts(lower, e)
    requires Acyclic(h) && o in h.objects && or !in l.objects
    requires Filling(e, h, l, o, Visits(lower, h.objects[o].items), es, |h.objects[o].items|)
    requires k == Add(l, or, Node(h.objects[o].level, Enumerated(es)))
    ensures Returned(e, h, k, ObjRef(o), ObjRef(or))
  {
    var order := VisitOrder(lower, KeysOf(h.objects[o].items));
    assert Visits(lower, h.objects[o].items) == Ordered(h.objects[o].items, order);
    FilledHeap(e, h, l, k, o, or, es, order);
    SortedResult(lower, e, h, o);
  }

  /** The new object next to the old one, after visits in any order that meets every position. */
  lemma FilledHeap(e: Effect, h: Heap, l: Heap, k: Heap, o: JsObject, or: JsObject, es: seq<Entry>, order: seq<int>)
    requires Lawful(e) && forall ms :: e.left(Obj(ms)) == Obj(Map(OnValue(e.left), ms))
    requires Acyclic(h) && o in h.objects && or !in l.objects && |order| == |h.objects[o].items|
    requires (forall j :: 0 <= j < |order| ==> 0 <= order[j] < |order|) && forall p :: 0 <= p < |order| ==> p in order
    requires Filling(e, h, l, o, Ordered(h.objects[o].items, order), es, |order|)
    requires k == Add(l, or, Node(h.objects[o].level, Enumerated(es)))
    ensures Later(e, h, k, ObjRef(o)) && Read(k, ObjRef(o)) == e.left(Read(h, ObjRef(o)))
    ensures var visited := Map(OnValue(e.result), Map(MemberAt(Read(h, ObjRef(o)).members), order));
      Read(k, ObjRef(or)) == Obj(SortBy(IndexOrder, visited))
  {
    var items, level := h.objects[o].items, h.objects[o].level;
    assert Ordered(items, order)[..|order|] == Ordered(items, order);
    FilledUnder(e, h, l, Ordered(items, order), es, level);
    EnumeratedReads(l, es, level);
    AddLater(e, h, l, k, o, or, Node(level, Enumerated(es)));
    ResultRead(e, h, l, k, o, or, es, order);
    LeftRead(e, h, l, k, o, es, order);
  }

  lemma ResultRead(e: Effect, h: Heap, l: Heap, k: Heap, o: JsObject, or: JsObject, es: seq<Entry>, order: seq<int>)
    requires Acyclic(h) && Acyclic(l) && Acyclic(k) && Extends(h, l) && o in h.objects && or in k.objects
    requires k.objects[or] == Node(h.objects[o].level, Enumerated(es)) && |order| == |es|
    requires forall j :: 0 <= j < |order| ==> 0 <= order[j] < |h.objects[o].items|
    requires AllVisited(e, h, l, Ordered(h.objects[o].items, order), es, h.objects[o].level)
    requires AllUnder(l, Values(es), h.objects[o].level)
    requires var level, fs := h.objects[o].level, Enumerated(es);
      AllUnder(l, Values(fs), level) && AllUnder(k, Values(fs), level) &&
      Reads(k, Values(fs), level) == Reads(l, Values(fs), level)
    ensures var visited := Map(OnValue(e.result), Map(MemberAt(Read(h, ObjRef(o)).members), order));
      Read(k, ObjRef(or)) == Obj(SortBy(IndexOrder, visited))
  {
    FilledReads(e, h, l, h.objects[o].items, order, es, h.objects[o].level);
    EnumeratedReads(l, es, h.objects[o].level);
  }

  /** Results in the order of the visits, enumerated, are the members of the result. */
  lemma VisitsEnumerated(lower: Lowering, f: Json -> Json, ms: seq<Member>)
    ensures SortBy(IndexOrder, Map(OnValue(f), SortBy(LowerOrder(lower), ms))) ==
      Map(OnValue(f), SortBy(KeyOrder(lower), ms))
  {
    SortOfMap(IndexOrder, IndexOrder, OnValue(f), SortBy(LowerOrder(lower), ms));
    EnumeratedSort(lower, ms);
  }

  lemma SortedResult(lower: Lowering, e: Effect, h: Heap, o: JsObject)
    requires Sorts(lower, e) && Acyclic(h) && o in h.objects
    ensures var order := VisitOrder(lower, KeysOf(h.objects[o].items));
      var visited := Map(OnValue(e.result), Map(MemberAt(Read(h, ObjRef(o)).members), order));
      e.result(Read(h, ObjRef(o))) == Obj(SortBy(IndexOrder, visited))
  {
    var ms := Read(h, ObjRef(o)).members;
    VisitSorts(lower, KeysOf(h.objects[o].items), ms);
    VisitsEnumerated(lower, e.result, ms);
    assert Read(h, ObjRef(o)) == Obj(ms);
  }

  lemma LeftRead(e: Effect, h: Heap, l: Heap, k: Heap, o: JsObject, es: seq<Entry>, order: seq<int>)
    requires forall ms :: e.left(Obj(ms)) == Obj(Map(OnValue(e.left), ms))
    requires Acyclic(h) && Acyclic(l) && Acyclic(k) && Extends(h, l) && Extends(l, k)
    requires l.arrays == k.arrays && o in h.objects
    requires |order| == |es| == |h.objects[o].items|
    requires (forall j :: 0 <= j < |order| ==> 0 <= order[j] < |order|) && forall p :: 0 <= p < |order| ==> p in order
    requires AllVisited(e, h, l, Ordered(h.objects[o].items, order), es, h.objects[o].level)
    ensures o in k.objects && Read(k, ObjRef(o)) == e.left(Read(h, ObjRef(o)))
  {
    var items, level := h.objects[o].items, h.objects[o].level;
    assert k.objects[o] == h.objects[o] == l.objects[o];
    ReadsBelow(l, k, Values(items), level);
    LeftReads(e, h, l, items, order, es, level);
  }

  // ---------- what a caller can tell of everything else ----------

  /**
   * Whatever else the caller holds, sharing parts with the argument or not, is equal up to order to what it was and
   * sorts to the same result; what was sorted before reads as before.
   */
  lemma OthersSettle(lower: Lowering, h: Heap, k: Heap, v: Value, r: Value, w: Value)
    requires Returned(EffectOf(lower), h, k, v, r) && Has(h, w)
    ensures Has(k, w) && Equivalent(Read(h, w), Read(k, w))
    ensures JsonAbc.SortObj(lower, Read(k, w)) == JsonAbc.SortObj(lower, Read(h, w))
    ensures After(lower, Read(h, w)) == Read(h, w) ==> Read(k, w) == Read(h, w)
  {
    PartOfSettled(EffectOf(lower), h, k, w);
    SettlesEquivalent(lower, Read(h, w), Read(k, w));
  }
}
