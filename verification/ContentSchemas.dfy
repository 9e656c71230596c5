/** Which schema the statements of a content speak of. */
module ContentSchemas {
  import opened Content
  import opened ContentParts
  import opened Json
  import opened JsonAbc
  import opened StatementValues
  import opened Texts
  import opened Wrappers

  /** Whatever content makes some of the statements of `c`, if only about one attribute, has its vocabulary. */
  ghost predicate FixesSchema(lower: Lowering, c: Content) {
    forall d :: IsContent(d) && StatementsWithin(lower, d, c) && Attributes(d) != [] ==> Vocabulary(d) == Vocabulary(c)
  }

  /** The vocabulary tells the schema id, but for the two texts that an absent one is rendered as. */
  lemma VocabularyNamesSchema(c: Content, d: Content)
    requires Vocabulary(c) == Vocabulary(d)
    ensures c.schemaId == d.schemaId || SchemaText(c) == "undefined" || SchemaText(c) == "null"
  {
    assert Vocabulary(c)[..|Vocabulary(c)| - 1] == SchemaText(c);
    assert Vocabulary(d)[..|Vocabulary(d)| - 1] == SchemaText(d);
  }

  ghost predicate AllStart(w: string, es: seq<Member>) {
    forall i :: 0 <= i < |es| ==> w <= es[i].key
  }

  /** The entries without the first `n` characters of their keys. */
  function Dropped(n: nat, es: seq<Member>): (r: seq<Member>)
    ensures |r| == |es|
  {
    seq(|es|, i requires 0 <= i < |es| => Member(if n <= |es[i].key| then es[i].key[n..] else "", es[i].value))
  }

  /** What is written for `v` under the vocabulary `vocab` can be read under `other`. */
  ghost predicate Reread(lower: Lowering, vocab: string, other: string, v: Json) {
    IsContainer(v) ==>
      var es := Prefixed(vocab, SortedEntries(lower, v));
      AllStart(other, es) && CanBeRead(lower, Dropped(|other|, es))
  }

  lemma DroppedPrefix(w: string, es: seq<Member>)
    ensures Dropped(|w|, Prefixed(w, es)) == es
    ensures AllStart(w, Prefixed(w, es))
  {
    forall i | 0 <= i < |es| ensures Dropped(|w|, Prefixed(w, es))[i] == es[i] && w <= Prefixed(w, es)[i].key {
      assert (w + es[i].key)[|w|..] == es[i].key;
    }
  }

  lemma PrefixDropped(w: string, es: seq<Member>)
    requires AllStart(w, es)
    ensures Prefixed(w, Dropped(|w|, es)) == es
  {
    forall i | 0 <= i < |es| ensures Prefixed(w, Dropped(|w|, es))[i] == es[i] {
      assert es[i].key == w + es[i].key[|w|..];
    }
  }

  lemma RereadHolds(lower: Lowering, vocab: string, other: string, v: Json, w: Json)
    requires WellFormed(w) && ExpandValue(lower, other, w) == ExpandValue(lower, vocab, v)
    ensures Reread(lower, vocab, other, v)
  {
    if IsContainer(v) {
      DroppedPrefix(other, SortedEntries(lower, w));
      EntriesWellFormed(lower, w);
      match w
      case Arr(xs) => ArrayPasses(lower, xs);
      case Obj(ms) => ObjectPasses(lower, ms);
    }
  }

  lemma DroppedDistinct(w: string, es: seq<Member>)
    requires AllStart(w, es) && DistinctKeys(es)
    ensures DistinctKeys(Dropped(|w|, es))
  {
    var fs := Dropped(|w|, es);
    forall i, j | 0 <= i < j < |fs| ensures fs[i].key != fs[j].key {
      assert es[i].key == w + fs[i].key && es[j].key == w + fs[j].key;
    }
  }

  lemma PrefixedDistinct(w: string, es: seq<Member>)
    requires DistinctKeys(es)
    ensures DistinctKeys(Prefixed(w, es))
  {
    var fs := Prefixed(w, es);
    forall i, j | 0 <= i < j < |fs| ensures fs[i].key != fs[j].key {
      if fs[i].key == fs[j].key { DropSame(w, es[i].key, es[j].key); }
    }
  }

  /** What is read under the other vocabulary, entry by entry. */
  ghost function Reading(lower: Lowering, vocab: string, other: string, v: Json): seq<Member>
    requires IsContainer(v)
  {
    Dropped(|other|, Prefixed(vocab, SortedEntries(lower, v)))
  }

  lemma ReadingWellFormed(lower: Lowering, vocab: string, other: string, v: Json)
    requires IsContainer(v) && WellFormed(v) && Reread(lower, vocab, other, v)
    ensures var fs := Reading(lower, vocab, other, v);
      AllCanonical(lower, fs) && DistinctKeys(fs) && forall i :: 0 <= i < |fs| ==> WellFormed(fs[i].value)
    ensures Prefixed(other, Reading(lower, vocab, other, v)) == Prefixed(vocab, SortedEntries(lower, v))
  {
    EntriesCanonical(lower, v);
    EntriesWellFormed(lower, v);
    PrefixedDistinct(vocab, SortedEntries(lower, v));
    DroppedDistinct(other, Prefixed(vocab, SortedEntries(lower, v)));
    PrefixDropped(other, Prefixed(vocab, SortedEntries(lower, v)));
  }

  lemma RereadWitness(lower: Lowering, vocab: string, other: string, v: Json) returns (w: Json)
    requires WellFormed(v) && Reread(lower, vocab, other, v)
    ensures WellFormed(w) && ExpandValue(lower, other, w) == ExpandValue(lower, vocab, v)
  {
    if !IsContainer(v) {
      return v;
    }
    ReadingWellFormed(lower, vocab, other, v);
    w := ContainerOf(lower, Reading(lower, vocab, other, v));
  }

  /** The expanded key of `a` has another `#`, at `n`, and cut there the value can be read as well. */
  ghost predicate OtherReading(lower: Lowering, c: Content, a: Member, n: nat) {
    var key := Vocabulary(c) + a.key;
    n < |key| && key[n] == '#' && n + 1 != |Vocabulary(c)| && Reread(lower, Vocabulary(c), key[..n + 1], a.value)
  }

  lemma OneAttribute(lower: Lowering, text: string, k: string, w: Json)
    requires WellFormed(w)
    ensures var d := Content(Id(text), Some([Member(k, w)]), None, None);
      && IsContent(d) && Attributes(d) != [] && Vocabulary(d) == text + "#"
      && Expand(lower, d) == [Member(text + "#" + k, ExpandValue(lower, text + "#", w))]
  {
  }

  lemma OtherReadingShows(lower: Lowering, c: Content, a: Member, n: nat) returns (d: Content)
    requires a in Attributes(c) && WellFormed(a.value) && OtherReading(lower, c, a, n)
    ensures IsContent(d) && StatementsWithin(lower, d, c) && Attributes(d) != [] && Vocabulary(d) != Vocabulary(c)
  {
    var key := Vocabulary(c) + a.key;
    var text, k := key[..n], key[n + 1..];
    assert key[..n + 1] == text + "#" && text + "#" + k == key;
    var w := RereadWitness(lower, Vocabulary(c), text + "#", a.value);
    d := Content(Id(text), Some([Member(k, w)]), None, None);
    OneAttribute(lower, text, k, w);
    var m := ExpandAttribute(lower, Vocabulary(c))(a);
    ExpandedMember(lower, c, m);
    IsStatement(lower, c, m);
    OneStatement(lower, d, m, c);
  }

  lemma OneStatement(lower: Lowering, d: Content, m: Member, c: Content)
    requires Expand(lower, d) == [m] && StatementText(m) in Statements(lower, c)
    ensures StatementsWithin(lower, d, c)
  {
    assert Statements(lower, d) == [StatementText(m)];
  }

  lemma AttributeIsExpanded(lower: Lowering, d: Content, c: Content, a: Member) returns (b: Member)
    requires StatementsWithin(lower, d, c) && a in Attributes(d)
    ensures b in Attributes(c)
    ensures Vocabulary(d) + a.key == Vocabulary(c) + b.key
    ensures ExpandValue(lower, Vocabulary(d), a.value) == ExpandValue(lower, Vocabulary(c), b.value)
  {
    var m := ExpandAttribute(lower, Vocabulary(d))(a);
    ExpandedMember(lower, d, m);
    IsStatement(lower, d, m);
    IsStatement(lower, c, m);
    ExpandedMember(lower, c, m);
    AttributeKeyHasHash(Vocabulary(d), a.key);
    b :| b in Attributes(c) && m == ExpandAttribute(lower, Vocabulary(c))(b);
  }

  lemma OtherVocabularyReads(lower: Lowering, d: Content, c: Content, a: Member) returns (b: Member, n: nat)
    requires StatementsWithin(lower, d, c) && Vocabulary(d) != Vocabulary(c)
    requires a in Attributes(d) && WellFormed(a.value)
    ensures b in Attributes(c) && OtherReading(lower, c, b, n)
  {
    b := AttributeIsExpanded(lower, d, c, a);
    var v, w := Vocabulary(c), Vocabulary(d);
    n := |w| - 1;
    var key := v + b.key;
    assert key[..n + 1] == w && key[..|v|] == v;
    assert key[n] == w[n];
    RereadHolds(lower, v, w, b.value, a.value);
  }

  ghost predicate ReadsOneWay(lower: Lowering, c: Content) {
    forall a, n: nat :: a in Attributes(c) ==> !OtherReading(lower, c, a, n)
  }

  lemma OneWayFixes(lower: Lowering, c: Content)
    requires ReadsOneWay(lower, c)
    ensures FixesSchema(lower, c)
  {
    forall d | IsContent(d) && StatementsWithin(lower, d, c) && Attributes(d) != []
      ensures Vocabulary(d) == Vocabulary(c)
    {
      if Vocabulary(d) != Vocabulary(c) {
        var b, n := OtherVocabularyReads(lower, d, c, Attributes(d)[0]);
      }
    }
  }

  /**
   * The statements fix the schema exactly when no attribute can be read another way: for no other `#` in its expanded
   * key do the keys inside its value all share that longer or shorter front and stay, without it, in the order in which
   * they are enumerated.
   */
  lemma FixesSchemaExactly(lower: Lowering, c: Content)
    requires forall a :: a in Attributes(c) ==> WellFormed(a.value)
    ensures FixesSchema(lower, c) <==> ReadsOneWay(lower, c)
  {
    if ReadsOneWay(lower, c) {
      OneWayFixes(lower, c);
    } else {
      var a, n: nat :| a in Attributes(c) && OtherReading(lower, c, a, n);
      var d := OtherReadingShows(lower, c, a, n);
    }
  }

  ghost predicate KeysWithoutHash(c: Content) {
    forall a :: a in Attributes(c) ==> '#' !in a.key
  }

  lemma OnlyHash(c: Content, a: Member, n: nat)
    requires '#' !in SchemaText(c) && '#' !in a.key
    requires n < |Vocabulary(c) + a.key| && (Vocabulary(c) + a.key)[n] == '#'
    ensures n + 1 == |Vocabulary(c)|
  {
    var text, key := SchemaText(c), Vocabulary(c) + a.key;
    forall i | 0 <= i < |text| ensures key[i] != '#' {
      assert key[i] == text[i] && text[i] in text;
    }
    forall i | |text| < i < |key| ensures key[i] != '#' {
      assert key[i] == a.key[i - |text| - 1] && key[i] in a.key;
    }
  }

  /** When neither schema id nor attribute keys hold a `#`, the content fixes its schema, whatever is disclosed. */
  lemma DisclosureFixesSchema(lower: Lowering, c: Content)
    requires '#' !in SchemaText(c) && KeysWithoutHash(c)
    ensures FixesSchema(lower, c)
  {
    forall a, n: nat | a in Attributes(c) ensures !OtherReading(lower, c, a, n) {
      if OtherReading(lower, c, a, n) {
        OnlyHash(c, a, n);
      }
    }
    OneWayFixes(lower, c);
  }

  lemma LastHash(s: string, k: string, t: string, l: string)
    requires '#' !in k && '#' !in l
    requires s + "#" + k == t + "#" + l
    ensures s == t && k == l
  {
    var u, v := s + "#" + k, t + "#" + l;
    assert u[|s|] == '#' && v[|t|] == '#';
    assert forall i :: |s| < i < |u| ==> u[i] == k[i - |s| - 1];
    assert forall i :: |t| < i < |v| ==> v[i] == l[i - |t| - 1];
    assert |s| == |t|;
    assert u[..|s|] == s && v[..|t|] == t;
    assert u[|s| + 1..] == k && v[|t| + 1..] == l;
  }

  /** Whatever the schema ids hold, a `#` in neither the issued nor the disclosed keys is enough as well. */
  lemma KeysFixSchema(lower: Lowering, c: Content, d: Content)
    requires KeysWithoutHash(c) && KeysWithoutHash(d)
    requires StatementsWithin(lower, d, c)
    ensures SameVocabulary(d, c) && PartOf(lower, d, c)
  {
    if Attributes(d) != [] {
      var a := Attributes(d)[0];
      var b := AttributeIsExpanded(lower, d, c, a);
      LastHash(SchemaText(d), a.key, SchemaText(c), b.key);
    }
    WithinImpliesPartOf(lower, d, c);
  }

  /** No container, or an empty one: nothing inside tells the vocabulary again. */
  predicate IsFlat(v: Json) {
    IsContainer(v) ==> EntriesOf(v) == []
  }

  lemma FlatReread(lower: Lowering, vocab: string, other: string, v: Json)
    requires IsFlat(v)
    ensures Reread(lower, vocab, other, v)
  {
    if v.Arr? {
      ArrayResult(lower, v.elems);
    } else if v.Obj? {
      ObjectResult(lower, v.members);
    }
  }

  /** Without containers that hold something, that is exactly when it does. */
  lemma FlatFixesSchema(lower: Lowering, c: Content)
    requires forall a :: a in Attributes(c) ==> IsFlat(a.value)
    ensures FixesSchema(lower, c) <==> Attributes(c) == [] || ('#' !in SchemaText(c) && KeysWithoutHash(c))
  {
    FixesSchemaExactly(lower, c);
    if '#' !in SchemaText(c) && KeysWithoutHash(c) {
      DisclosureFixesSchema(lower, c);
    } else if Attributes(c) != [] {
      var a, n := AnotherHash(c);
      FlatReread(lower, Vocabulary(c), (Vocabulary(c) + a.key)[..n + 1], a.value);
      assert OtherReading(lower, c, a, n);
    }
  }

  lemma AnotherHash(c: Content) returns (a: Member, n: nat)
    requires Attributes(c) != [] && ('#' in SchemaText(c) || !KeysWithoutHash(c))
    ensures a in Attributes(c)
    ensures n < |Vocabulary(c) + a.key| && (Vocabulary(c) + a.key)[n] == '#' && n + 1 != |Vocabulary(c)|
  {
    var text := SchemaText(c);
    if '#' in text {
      a := Attributes(c)[0];
      n :| 0 <= n < |text| && text[n] == '#';
    } else {
      a :| a in Attributes(c) && '#' in a.key;
      var k :| 0 <= k < |a.key| && a.key[k] == '#';
      n := |text| + 1 + k;
    }
  }

  /** With a `#` in a key, or in a schema id, one schema's attribute passes for another schema's. */
  lemma HashInKeyConfusesSchemas(lower: Lowering, tok: NumToken)
    ensures var c := Content(Id("s"), Some([Member("a#b", Num(tok))]), None, None);
      var d := Content(Id("s#a"), Some([Member("b", Num(tok))]), None, None);
      StatementsWithin(lower, d, c) && StatementsWithin(lower, c, d) && Vocabulary(d) != Vocabulary(c)
  {
    var c := Content(Id("s"), Some([Member("a#b", Num(tok))]), None, None);
    var d := Content(Id("s#a"), Some([Member("b", Num(tok))]), None, None);
    assert Vocabulary(c) + "a#b" == Vocabulary(d) + "b";
    assert |Vocabulary(c)| == 2 && |Vocabulary(d)| == 4;
    assert Expand(lower, c) == [Member(Vocabulary(c) + "a#b", Num(tok))];
    assert Expand(lower, d) == [Member(Vocabulary(d) + "b", Num(tok))];
  }
}
