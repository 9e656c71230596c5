/** What it means for a content to disclose a part of another. */
module ContentParts {
  import opened Content
  import opened Crypto
  import opened Json
  import opened JsonAbc
  import opened Sorting
  import opened StatementValues
  import opened Texts

  /** `d` discloses nothing that is not in `c`: same heading where present, attributes that make the same statements. */
  ghost predicate PartOf(lower: Lowering, d: Content, c: Content) {
    && (Truthy(d.issuer) ==> d.issuer == c.issuer)
    && (Truthy(d.holder) ==> d.holder == c.holder)
    && forall a :: a in Attributes(d) ==> HasAttribute(lower, c, a)
  }

  ghost predicate HasAttribute(lower: Lowering, c: Content, a: Member) {
    exists b :: b in Attributes(c) && b.key == a.key && SameDisclosure(lower, b.value, a.value)
  }

  /** The same in terms of values: each is the issued one up to order, or its impostor of the other kind. */
  ghost predicate PartUpToOrder(lower: Lowering, d: Content, c: Content) {
    && (Truthy(d.issuer) ==> d.issuer == c.issuer)
    && (Truthy(d.holder) ==> d.holder == c.holder)
    && forall a :: a in Attributes(d) ==>
      exists b :: b in Attributes(c) && b.key == a.key && UpToOrder(lower, b.value, a.value)
  }

  ghost predicate UpToOrder(lower: Lowering, v: Json, w: Json) {
    Equivalent(v, w) || (IsContainer(v) && IsContainer(w) && v.Arr? != w.Arr? && Poses(lower, v))
  }

  lemma PartIsUpToOrder(lower: Lowering, d: Content, c: Content)
    requires PartOf(lower, d, c)
    ensures PartUpToOrder(lower, d, c)
  {
    forall a | a in Attributes(d)
      ensures exists b :: b in Attributes(c) && b.key == a.key && UpToOrder(lower, b.value, a.value)
    {
      var b :| b in Attributes(c) && b.key == a.key && SameDisclosure(lower, b.value, a.value);
      if IsContainer(b.value) && IsContainer(a.value) && b.value.Arr? != a.value.Arr? {
        OtherKindPoses(lower, b.value, a.value);
      } else {
        SameDisclosureEquivalent(lower, b.value, a.value);
      }
    }
  }

  lemma ExpandedMember(lower: Lowering, c: Content, m: Member)
    ensures m in Expand(lower, c) <==>
      || (Truthy(c.issuer) && m == Member("@issuer", Str(c.issuer.value)))
      || (Truthy(c.holder) && m == Member("@holder", Str(c.holder.value)))
      || exists a :: a in Attributes(c) && m == ExpandAttribute(lower, Vocabulary(c))(a)
  {
    var es := Map(ExpandAttribute(lower, Vocabulary(c)), Attributes(c));
    assert Expand(lower, c) == Heading(c) + es;
    if a :| a in Attributes(c) && m == ExpandAttribute(lower, Vocabulary(c))(a) {
      var i :| 0 <= i < |Attributes(c)| && Attributes(c)[i] == a;
      assert es[i] == m;
    }
  }

  lemma IsStatement(lower: Lowering, c: Content, m: Member)
    ensures StatementText(m) in Statements(lower, c) <==> m in Expand(lower, c)
  {
    var e := Expand(lower, c);
    if StatementText(m) in Statements(lower, c) {
      var i :| 0 <= i < |e| && Statements(lower, c)[i] == StatementText(m);
      StatementTextInjective(m, e[i]);
    }
    if i :| 0 <= i < |e| && e[i] == m {
      assert Statements(lower, c)[i] == StatementText(m);
    }
  }

  lemma AttributeKeyHasHash(vocab: string, k: string)
    requires '#' in vocab
    ensures '#' in vocab + k && vocab + k != "@issuer" && vocab + k != "@holder"
  {
    var i :| 0 <= i < |vocab| && vocab[i] == '#';
    assert (vocab + k)[i] == '#';
    assert '#' !in "@issuer" && '#' !in "@holder";
  }

  /** An attribute's expanded member is in `c` exactly when `c` has an attribute that discloses the same. */
  lemma AttributeExpanded(lower: Lowering, c: Content, a: Member)
    ensures ExpandAttribute(lower, Vocabulary(c))(a) in Expand(lower, c) <==> HasAttribute(lower, c, a)
  {
    var f := ExpandAttribute(lower, Vocabulary(c));
    assert Vocabulary(c)[|Vocabulary(c)| - 1] == '#';
    AttributeKeyHasHash(Vocabulary(c), a.key);
    ExpandedMember(lower, c, f(a));
    if b :| b in Attributes(c) && f(a) == f(b) {
      DropSame(Vocabulary(c), a.key, b.key);
      ExpandValueDecides(lower, Vocabulary(c), b.value, a.value);
    }
    if b :| b in Attributes(c) && b.key == a.key && SameDisclosure(lower, b.value, a.value) {
      ExpandValueDecides(lower, Vocabulary(c), b.value, a.value);
      assert f(a) == f(b);
    }
  }

  lemma HeadingExpanded(lower: Lowering, c: Content, v: string)
    ensures Member("@issuer", Str(v)) in Expand(lower, c) <==> Truthy(c.issuer) && c.issuer.value == v
    ensures Member("@holder", Str(v)) in Expand(lower, c) <==> Truthy(c.holder) && c.holder.value == v
  {
    assert Vocabulary(c)[|Vocabulary(c)| - 1] == '#';
    assert "@issuer"[1] != "@holder"[1];
    ExpandedMember(lower, c, Member("@issuer", Str(v)));
    ExpandedMember(lower, c, Member("@holder", Str(v)));
    forall a: Member ensures Vocabulary(c) + a.key != "@issuer" && Vocabulary(c) + a.key != "@holder" {
      AttributeKeyHasHash(Vocabulary(c), a.key);
    }
  }

  /** The vocabulary shows in attributes only. */
  predicate SameVocabulary(d: Content, c: Content) {
    Vocabulary(d) == Vocabulary(c) || Attributes(d) == []
  }

  ghost predicate StatementsWithin(lower: Lowering, d: Content, c: Content) {
    forall s :: s in Statements(lower, d) ==> s in Statements(lower, c)
  }

  /** Under one vocabulary, the statements of `d` are among those of `c` exactly when `d` is a part of `c`. */
  lemma WithinIsPartOf(lower: Lowering, d: Content, c: Content)
    requires SameVocabulary(d, c)
    ensures StatementsWithin(lower, d, c) <==> PartOf(lower, d, c)
  {
    if StatementsWithin(lower, d, c) {
      WithinImpliesPartOf(lower, d, c);
    }
    if PartOf(lower, d, c) {
      PartOfImpliesWithin(lower, d, c);
    }
  }

  lemma WithinImpliesPartOf(lower: Lowering, d: Content, c: Content)
    requires SameVocabulary(d, c)
    requires StatementsWithin(lower, d, c)
    ensures PartOf(lower, d, c)
  {
    if Truthy(d.issuer) {
      HeadingExpanded(lower, d, d.issuer.value);
      HeadingExpanded(lower, c, d.issuer.value);
      IsStatement(lower, d, Member("@issuer", Str(d.issuer.value)));
      IsStatement(lower, c, Member("@issuer", Str(d.issuer.value)));
    }
    if Truthy(d.holder) {
      HeadingExpanded(lower, d, d.holder.value);
      HeadingExpanded(lower, c, d.holder.value);
      IsStatement(lower, d, Member("@holder", Str(d.holder.value)));
      IsStatement(lower, c, Member("@holder", Str(d.holder.value)));
    }
    forall a | a in Attributes(d) ensures HasAttribute(lower, c, a) {
      var m := ExpandAttribute(lower, Vocabulary(d))(a);
      ExpandedMember(lower, d, m);
      IsStatement(lower, d, m);
      IsStatement(lower, c, m);
      AttributeExpanded(lower, c, a);
    }
  }

  lemma PartOfImpliesWithin(lower: Lowering, d: Content, c: Content)
    requires SameVocabulary(d, c)
    requires PartOf(lower, d, c)
    ensures StatementsWithin(lower, d, c)
  {
    forall s | s in Statements(lower, d) ensures s in Statements(lower, c) {
      var i :| 0 <= i < |Expand(lower, d)| && Statements(lower, d)[i] == s;
      var m := Expand(lower, d)[i];
      ExpandedMember(lower, d, m);
      IsStatement(lower, c, m);
      if a :| a in Attributes(d) && m == ExpandAttribute(lower, Vocabulary(d))(a) {
        AttributeExpanded(lower, c, a);
      } else {
        HeadingExpanded(lower, c, m.value.s);
      }
    }
  }

  /** A selection of the attributes, in any order, is a part, whether taken before or after the first hashing. */
  lemma SelectionIsPart(lower: Lowering, c: Content, d: Content)
    requires (Truthy(d.issuer) ==> d.issuer == c.issuer) && (Truthy(d.holder) ==> d.holder == c.holder)
    requires forall a :: a in Attributes(d) ==> a in Attributes(c) || a in Attributes(AfterContent(lower, c))
    ensures PartOf(lower, d, c)
    ensures PartOf(lower, d, AfterContent(lower, c))
  {
    var c' := AfterContent(lower, c);
    forall a | a in Attributes(d) ensures HasAttribute(lower, c, a) && HasAttribute(lower, c', a) {
      var i :| 0 <= i < |Attributes(c)| && (Attributes(c)[i] == a || Attributes(c')[i] == a);
      var b := Attributes(c)[i];
      AfterExpandsAlike(lower, b.value);
      assert b in Attributes(c) && Attributes(c')[i] in Attributes(c');
      assert Attributes(c')[i] == Member(b.key, After(lower, b.value));
      assert SameDisclosure(lower, b.value, a.value);
      assert SameDisclosure(lower, After(lower, b.value), a.value);
    }
  }
}
