/** Soundness and completeness of the proofs by hash list. */
module Disclosure {
  import opened Content
  import opened ContentParts
  import opened ContentSchemas
  import opened Crypto
  import opened HashList
  import opened JsonAbc
  import opened Sorting
  import opened StatementValues
  import opened Wrappers

  /** Every text hashed when `c` was published and when `d` is verified. */
  ghost function TextsCompared(h: Hash, lower: Lowering, c: Content, src: NonceSource,
                               d: Content, nonces: map<string, string>): set<string> {
    HashedStrings(h, Statements(lower, c), src) + HashedStrings(h, Statements(lower, d), Nonces(nonces))
  }

  /** Both calls return: `c` is published, and `d` is verified against the list. */
  ghost predicate VerifiesAgainst(h: Hash, lower: Lowering, d: Content, nonces: map<string, string>,
                                  c: Content, src: NonceSource) {
    HashOutcome(h, lower, c, src).Ok? &&
    VerifyOutcome(h, lower, d, nonces, HashOutcome(h, lower, c, src).value.hashes) == Ok(())
  }

  lemma VerifiesIsAccepts(h: Hash, lower: Lowering, d: Content, nonces: map<string, string>,
                          c: Content, src: NonceSource)
    requires HashOutcome(h, lower, c, src).Ok?
    ensures VerifiesAgainst(h, lower, d, nonces, c, src) <==>
      Expandable(d) && Accepts(h, Statements(lower, d), nonces, HashOutcome(h, lower, c, src).value.hashes)
  {
    AcceptsWithoutObjection(h, Statements(lower, d), nonces, HashOutcome(h, lower, c, src).value.hashes);
  }

  /**
   * Soundness: whatever nonces are supplied, only statements of the issued content are accepted. So under its
   * schema, and under any schema if it fixes its own, only parts of it are accepted, and their values are the issued
   * ones up to order, but for arrays and objects that pose as each other.
   */
  lemma DisclosureSound(h: Hash, lower: Lowering, c: Content, src: NonceSource,
                        d: Content, nonces: map<string, string>)
    requires VerifiesAgainst(h, lower, d, nonces, c, src)
    requires CollisionFree(h, TextsCompared(h, lower, c, src, d, nonces))
    ensures StatementsWithin(lower, d, c)
    ensures SameVocabulary(d, c) || (IsContent(d) && FixesSchema(lower, c)) ==>
      SameVocabulary(d, c) && PartOf(lower, d, c) && PartUpToOrder(lower, d, c)
  {
    VerifiesIsAccepts(h, lower, d, nonces, c, src);
    forall s | s in Statements(lower, d) ensures s in Statements(lower, c) {
      var k :| 0 <= k < |Statements(lower, d)| && Statements(lower, d)[k] == s;
      AcceptedWasIssued(h, Statements(lower, c), src, Statements(lower, d), nonces, k);
    }
    if SameVocabulary(d, c) || (IsContent(d) && FixesSchema(lower, c)) {
      WithinImpliesPartOf(lower, d, c);
      PartIsUpToOrder(lower, d, c);
    }
  }

  /** A part has no attribute that stops the expansion, if the whole has none. */
  lemma PartExpands(lower: Lowering, d: Content, c: Content)
    requires Expandable(c) && PartOf(lower, d, c)
    ensures Expandable(d)
  {
  }

  /** Completeness: every part is accepted with its nonces, collisions or not. */
  lemma DisclosureComplete(h: Hash, lower: Lowering, c: Content, src: NonceSource,
                           d: Content, nonces: map<string, string>)
    requires SameVocabulary(d, c) && PartOf(lower, d, c)
    requires HashOutcome(h, lower, c, src).Ok?
    requires CoversNonces(h, nonces, HashOutcome(h, lower, c, src).value.nonceMap, Statements(lower, d))
    ensures VerifiesAgainst(h, lower, d, nonces, c, src)
  {
    PartExpands(lower, d, c);
    WithinIsPartOf(lower, d, c);
    IssuedAreAccepted(h, Statements(lower, c), src, Statements(lower, d), nonces);
    VerifiesIsAccepts(h, lower, d, nonces, c, src);
  }

  /**
   * With published nonces for its statements, a content is accepted exactly when it is a part of what was issued;
   * that it speaks of the same schema need not be known before if the issued content fixes its schema.
   */
  lemma DisclosureExactly(h: Hash, lower: Lowering, c: Content, src: NonceSource,
                          d: Content, nonces: map<string, string>)
    requires SameVocabulary(d, c) || (IsContent(d) && FixesSchema(lower, c))
    requires HashOutcome(h, lower, c, src).Ok?
    requires CoversNonces(h, nonces, HashOutcome(h, lower, c, src).value.nonceMap, Statements(lower, d))
    requires CollisionFree(h, TextsCompared(h, lower, c, src, d, nonces))
    ensures VerifiesAgainst(h, lower, d, nonces, c, src) <==> SameVocabulary(d, c) && PartOf(lower, d, c)
  {
    if VerifiesAgainst(h, lower, d, nonces, c, src) {
      DisclosureSound(h, lower, c, src, d, nonces);
    }
    if SameVocabulary(d, c) && PartOf(lower, d, c) {
      DisclosureComplete(h, lower, c, src, d, nonces);
    }
  }

  /** What is published, or thrown, depends on the set of attributes, not on their order. */
  lemma PublishedFromAttributeSet(h: Hash, lower: Lowering, c: Content, d: Content, nonces: map<string, string>)
    requires Heading(d) == Heading(c) && Vocabulary(d) == Vocabulary(c)
    requires multiset(Attributes(d)) == multiset(Attributes(c))
    requires HashOutcome(h, lower, c, Nonces(nonces)).Ok?
    ensures HashOutcome(h, lower, d, Nonces(nonces)) == HashOutcome(h, lower, c, Nonces(nonces))
  {
    var f := ExpandAttribute(lower, Vocabulary(c));
    forall m | m in Attributes(d) ensures m in Attributes(c) {
      SameMembers(Attributes(d), Attributes(c), m);
    }
    MapPermutes(f, Attributes(c), Attributes(d));
    MapPermutes(StatementText, Expand(lower, c), Expand(lower, d));
    PublishForgetsOrder(h, Statements(lower, c), Statements(lower, d), nonces);
  }

  lemma AfterExpandable(lower: Lowering, c: Content)
    ensures Expandable(AfterContent(lower, c)) <==> Expandable(c)
  {
    var ms, ns := Attributes(c), Attributes(AfterContent(lower, c));
    forall i | 0 <= i < |ms| ensures ns[i].value.Null? <==> ms[i].value.Null? {
    }
    if Expandable(c) {
      forall m | m in ns ensures !m.value.Null? {
        var i :| 0 <= i < |ns| && ns[i] == m;
        assert ms[i] in ms;
      }
    }
    if Expandable(AfterContent(lower, c)) {
      forall m | m in ms ensures !m.value.Null? {
        var i :| 0 <= i < |ms| && ms[i] == m;
        assert ns[i] in ns;
      }
    }
  }

  lemma DigestsDistinct(h: Hash, lower: Lowering, c: Content, i: int, j: int)
    requires IsContent(c) && CollisionFree(h, set s | s in Statements(lower, c))
    requires 0 <= i < j < |Statements(lower, c)|
    ensures h(Statements(lower, c)[i]) != h(Statements(lower, c)[j])
  {
    StatementsDistinct(lower, c, i, j);
    assert Statements(lower, c)[i] in Statements(lower, c) && Statements(lower, c)[j] in Statements(lower, c);
  }

  /**
   * Hashing what the first hashing has left of the content, with the nonces it returned, publishes the same again; if
   * nonces were generated, the digests of the statements must not collide.
   */
  lemma HashAgain(h: Hash, lower: Lowering, c: Content, src: NonceSource)
    requires HashOutcome(h, lower, c, src).Ok?
    requires src.Nonces? || (IsContent(c) && CollisionFree(h, set s | s in Statements(lower, c)))
    ensures HashOutcome(h, lower, AfterContent(lower, c), Nonces(HashOutcome(h, lower, c, src).value.nonceMap)) ==
      HashOutcome(h, lower, c, src)
  {
    AfterExpandable(lower, c);
    MutationInvisible(lower, c);
    if !src.Nonces? {
      forall i, j | 0 <= i < j < |Statements(lower, c)|
        ensures h(Statements(lower, c)[i]) != h(Statements(lower, c)[j])
      {
        DigestsDistinct(h, lower, c, i, j);
      }
    }
    PublishAgain(h, Statements(lower, c), src);
  }
}
