/** The published list of salted hashes and the check of statements against it. */
module HashList {
  import opened Crypto
  import opened Sorting
  import opened Texts
  import opened Wrappers

  datatype Error =
    | TypeError
    | NonceMapMalformed(statement: string)
    | ContentUnverifiable(causes: seq<Cause>)

  datatype Cause = NoProofForStatement(statement: string) | InvalidProofForStatement(statement: string)

  // ---------- the published hash list ----------

  function SaltedHashOf(e: Hashed): Digest {
    e.saltedHash
  }

  /** The nonces keyed by digest; a later statement wins. */
  function NonceMap(es: seq<Hashed>): map<string, string> {
    if es == [] then map[]
    else
      var e := es[|es| - 1];
      NonceMap(es[..|es| - 1])[e.digest := NonceText(e.nonce)]
  }

  /** The position of the first statement left without a nonce, or the number of statements. */
  function FirstWithoutNonce(es: seq<Hashed>): (n: nat)
    ensures n <= |es|
    ensures forall i :: 0 <= i < n ==> Truthy(es[i].nonce)
    ensures n < |es| ==> !Truthy(es[n].nonce)
  {
    if es == [] || !Truthy(es[0].nonce) then 0 else 1 + FirstWithoutNonce(es[1..])
  }

  lemma FirstIs(es: seq<Hashed>, n: nat)
    requires n <= |es|
    requires forall i :: 0 <= i < n ==> Truthy(es[i].nonce)
    requires n < |es| ==> !Truthy(es[n].nonce)
    ensures FirstWithoutNonce(es) == n
  {
    var m := FirstWithoutNonce(es);
    assert !(m < n) && !(n < m);
  }

  datatype Published = Published(hashes: seq<Digest>, nonceMap: map<string, string>)

  /** What `hashContents` returns or throws for a list of statements. */
  function Publish(h: Hash, statements: seq<string>, src: NonceSource): Outcome<Published, Error> {
    var es := HashStatements(h, statements, src);
    var n := FirstWithoutNonce(es);
    if n < |es| then Thrown(NonceMapMalformed(es[n].statement))
    else Ok(Published(SortBy(HexOrder, Map(SaltedHashOf, es)), NonceMap(es)))
  }

  method BuildNonceMap(processed: seq<Hashed>) returns (r: Outcome<map<string, string>, Error>)
    ensures var n := FirstWithoutNonce(processed);
      r == if n < |processed| then Thrown(NonceMapMalformed(processed[n].statement)) else Ok(NonceMap(processed))
  {
    var nonceMap: map<string, string> := map[];
    for i := 0 to |processed|
      invariant forall k :: 0 <= k < i ==> Truthy(processed[k].nonce)
      invariant nonceMap == NonceMap(processed[..i])
    {
      var e := processed[i];
      if !Truthy(e.nonce) {
        FirstIs(processed, i);
        return Thrown(NonceMapMalformed(e.statement));
      }
      assert processed[..i + 1][..i] == processed[..i];
      nonceMap := nonceMap[e.digest := e.nonce.value];
    }
    assert processed[..|processed|] == processed;
    FirstIs(processed, |processed|);
    return Ok(nonceMap);
  }

  method HashAndPublish(h: Hash, statements: seq<string>, src: NonceSource) returns (r: Outcome<Published, Error>)
    ensures r == Publish(h, statements, src)
  {
    var processed := HashStatements(h, statements, src);
    var hashes := SortBy(HexOrder, Map(SaltedHashOf, processed));
    var nonceMap := BuildNonceMap(processed);
    if nonceMap.Thrown? {
      return Thrown(nonceMap.error);
    }
    return Ok(Published(hashes, nonceMap.value));
  }

  // ---------- verification ----------

  /** What speaks against one hashed statement, if anything. */
  function Objection(e: Hashed, nonces: map<string, string>, hashes: seq<string>): Option<Cause> {
    if e.digest !in nonces || !Truthy(e.nonce) then Some(NoProofForStatement(e.statement))
    else if e.saltedHash !in hashes then Some(InvalidProofForStatement(e.statement))
    else None
  }

  function Objections(es: seq<Hashed>, nonces: map<string, string>, hashes: seq<string>): seq<Cause> {
    if es == [] then []
    else
      var o := Objection(es[|es| - 1], nonces, hashes);
      Objections(es[..|es| - 1], nonces, hashes) + (if o.Some? then [o.value] else [])
  }

  /** Every statement has a nonce in the proof, and its salted hash is on the list. */
  ghost predicate Accepts(h: Hash, statements: seq<string>, nonces: map<string, string>, hashes: seq<string>) {
    forall i :: 0 <= i < |statements| ==>
      var d := h(statements[i]);
      d in nonces && nonces[d] != "" && h(nonces[d] + d) in hashes
  }

  ghost predicate NoneObjected(es: seq<Hashed>, nonces: map<string, string>, hashes: seq<string>) {
    forall i :: 0 <= i < |es| ==> Objection(es[i], nonces, hashes).None?
  }

  lemma NoneObjectedAppend(es: seq<Hashed>, e: Hashed, nonces: map<string, string>, hashes: seq<string>)
    ensures NoneObjected(es + [e], nonces, hashes) <==>
      NoneObjected(es, nonces, hashes) && Objection(e, nonces, hashes).None?
  {
    var fs := es + [e];
    assert fs[|es|] == e && forall i :: 0 <= i < |es| ==> fs[i] == es[i];
  }

  lemma {:induction false} NoObjections(es: seq<Hashed>, nonces: map<string, string>, hashes: seq<string>)
    ensures Objections(es, nonces, hashes) == [] <==> NoneObjected(es, nonces, hashes)
  {
    if es != [] {
      var n := |es| - 1;
      NoObjections(es[..n], nonces, hashes);
      NoneObjectedAppend(es[..n], es[n], nonces, hashes);
      assert es[..n] + [es[n]] == es;
    }
  }

  lemma AcceptsWithoutObjection(h: Hash, statements: seq<string>, nonces: map<string, string>, hashes: seq<string>)
    ensures Accepts(h, statements, nonces, hashes) <==>
      Objections(HashStatements(h, statements, Nonces(nonces)), nonces, hashes) == []
  {
    var es := HashStatements(h, statements, Nonces(nonces));
    NoObjections(es, nonces, hashes);
    forall i | 0 <= i < |statements|
      ensures Objection(es[i], nonces, hashes).None? <==>
        var d := h(statements[i]); d in nonces && nonces[d] != "" && h(nonces[d] + d) in hashes
    {
      assert "" + statements[i] == statements[i];
    }
  }

  method CollectObjections(hashed: seq<Hashed>, nonces: map<string, string>, hashes: seq<string>)
    returns (verified: bool, errors: seq<Cause>)
    ensures errors == Objections(hashed, nonces, hashes)
    ensures verified <==> errors == []
  {
    verified, errors := true, [];
    for i := 0 to |hashed|
      invariant errors == Objections(hashed[..i], nonces, hashes)
      invariant verified <==> errors == []
    {
      var e := hashed[i];
      assert hashed[..i + 1][..i] == hashed[..i];
      if e.digest !in nonces || !Truthy(e.nonce) {
        errors := errors + [NoProofForStatement(e.statement)];
        verified := false;
      } else if e.saltedHash !in hashes {
        errors := errors + [InvalidProofForStatement(e.statement)];
        verified := false;
      }
    }
    assert hashed[..|hashed|] == hashed;
  }

  /** What the check of the statements returns or throws: every objection is among the causes. */
  function Verify(h: Hash, statements: seq<string>, nonces: map<string, string>,
                  hashes: seq<string>): Outcome<(), Error> {
    var causes := Objections(HashStatements(h, statements, Nonces(nonces)), nonces, hashes);
    if causes == [] then Ok(()) else Thrown(ContentUnverifiable(causes))
  }

  method VerifyStatements(h: Hash, statements: seq<string>, nonces: map<string, string>, hashes: seq<string>)
    returns (r: Outcome<(), Error>)
    ensures r == Verify(h, statements, nonces, hashes)
    ensures r.Ok? <==> Accepts(h, statements, nonces, hashes)
  {
    var hashed := HashStatements(h, statements, Nonces(nonces));
    var verified, errors := CollectObjections(hashed, nonces, hashes);
    AcceptsWithoutObjection(h, statements, nonces, hashes);
    if !verified {
      return Thrown(ContentUnverifiable(errors));
    }
    return Ok(());
  }

  // ---------- what is published, and what is objected ----------

  lemma EntryIs(h: Hash, statements: seq<string>, src: NonceSource, i: int)
    requires 0 <= i < |statements|
    ensures var d, n := h(statements[i]), GetNonce(src, i, h(statements[i]));
      HashStatements(h, statements, src)[i] == Hashed(d, statements[i], h(NonceText(n) + d), n)
  {
    assert "" + statements[i] == statements[i];
  }

  /** Every statement has the nonce in the list, which is not empty. */
  ghost predicate HasNonces(h: Hash, statements: seq<string>, src: NonceSource, ns: seq<string>) {
    |ns| == |statements| &&
    forall i :: 0 <= i < |ns| ==> ns[i] != "" && HashStatements(h, statements, src)[i].nonce == Some(ns[i])
  }

  /** The salted hash of a statement under a nonce. */
  ghost function Salted(h: Hash, s: string, n: string): Digest {
    h(n + h(s))
  }

  /** The list holds the salted hashes and no others. */
  ghost predicate ListsHashes(h: Hash, statements: seq<string>, ns: seq<string>, hashes: seq<Digest>)
    requires |ns| == |statements|
  {
    && |hashes| == |statements|
    && (forall i :: 0 <= i < |ns| ==> Salted(h, statements[i], ns[i]) in hashes)
    && (forall x :: x in hashes ==> exists i :: 0 <= i < |ns| && x == Salted(h, statements[i], ns[i]))
  }

  /** The map has a nonce for each digest, that of a statement with the digest, and for nothing else. */
  ghost predicate MapsNonces(h: Hash, statements: seq<string>, ns: seq<string>, m: map<string, string>)
    requires |ns| == |statements|
  {
    && (forall i :: 0 <= i < |ns| ==> h(statements[i]) in m)
    && (forall d :: d in m ==> exists i :: 0 <= i < |ns| && d == h(statements[i]) && m[d] == ns[i])
  }

  /** The outcome is the publication of the statements under these nonces. */
  ghost predicate PublishedWith(h: Hash, statements: seq<string>, ns: seq<string>, r: Outcome<Published, Error>)
    requires |ns| == |statements|
  {
    r.Ok? && ListsHashes(h, statements, ns, r.value.hashes) && MapsNonces(h, statements, ns, r.value.nonceMap)
  }

  lemma HashesListed(h: Hash, statements: seq<string>, src: NonceSource, ns: seq<string>)
    requires HasNonces(h, statements, src, ns) && Publish(h, statements, src).Ok?
    ensures ListsHashes(h, statements, ns, Publish(h, statements, src).value.hashes)
  {
    var es, hashes := HashStatements(h, statements, src), Publish(h, statements, src).value.hashes;
    forall i | 0 <= i < |ns|
      ensures es[i].saltedHash == Salted(h, statements[i], ns[i]) && Salted(h, statements[i], ns[i]) in hashes
    {
      EntryIs(h, statements, src, i);
      PublishedHash(h, statements, src, es[i].saltedHash);
    }
    forall x | x in hashes ensures exists i :: 0 <= i < |ns| && x == Salted(h, statements[i], ns[i]) {
      PublishedHash(h, statements, src, x);
      var i :| 0 <= i < |es| && es[i].saltedHash == x;
    }
  }

  lemma NoncesMapped(h: Hash, statements: seq<string>, src: NonceSource, ns: seq<string>)
    requires HasNonces(h, statements, src, ns)
    ensures MapsNonces(h, statements, ns, NonceMap(HashStatements(h, statements, src)))
  {
    var es := HashStatements(h, statements, src);
    forall i | 0 <= i < |ns| ensures h(statements[i]) in NonceMap(es) {
      EntryIs(h, statements, src, i);
      NonceMapEntry(es, h(statements[i]));
    }
    forall d | d in NonceMap(es)
      ensures exists i :: 0 <= i < |ns| && d == h(statements[i]) && NonceMap(es)[d] == ns[i]
    {
      NonceMapEntry(es, d);
      var i :| HasNonce(es, i, d, NonceMap(es)[d]);
      EntryIs(h, statements, src, i);
    }
  }

  lemma PublishedOf(h: Hash, statements: seq<string>, src: NonceSource, ns: seq<string>)
    requires HasNonces(h, statements, src, ns)
    ensures PublishedWith(h, statements, ns, Publish(h, statements, src))
  {
    var es := HashStatements(h, statements, src);
    FirstIs(es, |es|);
    HashesListed(h, statements, src, ns);
    NoncesMapped(h, statements, src, ns);
  }

  /** Where digests differ, each one's own nonce is in the map. */
  lemma OwnNonce(h: Hash, statements: seq<string>, ns: seq<string>, r: Outcome<Published, Error>, i: int)
    requires |ns| == |statements| && PublishedWith(h, statements, ns, r) && 0 <= i < |ns|
    requires forall j :: 0 <= j < |ns| && j != i ==> h(statements[j]) != h(statements[i])
    ensures h(statements[i]) in r.value.nonceMap && r.value.nonceMap[h(statements[i])] == ns[i]
  {
  }

  /** The list is ascending. */
  lemma HashesAscend(h: Hash, statements: seq<string>, src: NonceSource, i: int, j: int)
    requires Publish(h, statements, src).Ok? && 0 <= i < j < |Publish(h, statements, src).value.hashes|
    ensures var hashes := Publish(h, statements, src).value.hashes; TextLe(hashes[i], hashes[j])
  {
    var xs := Map(SaltedHashOf, HashStatements(h, statements, src));
    SortSorted(HexOrder, xs);
    DigestsAscend(SortBy(HexOrder, xs)[i], SortBy(HexOrder, xs)[j]);
  }

  /** The outcome is the error for statement `k`, the first without a nonce. */
  ghost predicate FailsAt(h: Hash, statements: seq<string>, src: NonceSource, k: int) {
    0 <= k < |statements| && Publish(h, statements, src) == Thrown(NonceMapMalformed(statements[k]))
  }

  lemma PublishFails(h: Hash, statements: seq<string>, src: NonceSource, k: int)
    requires 0 <= k < |statements|
    requires !Truthy(GetNonce(src, k, h(statements[k])))
    requires forall j :: 0 <= j < k ==> Truthy(GetNonce(src, j, h(statements[j])))
    ensures FailsAt(h, statements, src, k)
  {
    var es := HashStatements(h, statements, src);
    forall j | 0 <= j <= k ensures es[j].nonce == GetNonce(src, j, h(statements[j])) {
      EntryIs(h, statements, src, j);
    }
    FirstIs(es, k);
    EntryIs(h, statements, src, k);
  }

  /** With generated nonces: one call per statement, which is given its position and its digest. */
  lemma GeneratedNonces(h: Hash, statements: seq<string>, g: (nat, string) -> string, ns: seq<string>)
    requires |ns| == |statements| && forall i :: 0 <= i < |ns| ==> ns[i] == g(i, h(statements[i])) && ns[i] != ""
    ensures PublishedWith(h, statements, ns, Publish(h, statements, Generator(g)))
  {
    forall i | 0 <= i < |ns| ensures HashStatements(h, statements, Generator(g))[i].nonce == Some(ns[i]) {
      EntryIs(h, statements, Generator(g), i);
    }
    PublishedOf(h, statements, Generator(g), ns);
  }

  /** With nonces from a map: those under the digests. */
  lemma GivenNonces(h: Hash, statements: seq<string>, m: map<string, string>, ns: seq<string>)
    requires |ns| == |statements|
    requires forall i :: 0 <= i < |ns| ==> h(statements[i]) in m && ns[i] == m[h(statements[i])] && ns[i] != ""
    ensures PublishedWith(h, statements, ns, Publish(h, statements, Nonces(m)))
  {
    forall i | 0 <= i < |ns| ensures HashStatements(h, statements, Nonces(m))[i].nonce == Some(ns[i]) {
      EntryIs(h, statements, Nonces(m), i);
    }
    PublishedOf(h, statements, Nonces(m), ns);
  }

  /** The first statement for which there is no nonce is the one the error names, whatever the source. */
  lemma FirstMissingNonce(h: Hash, statements: seq<string>, g: (nat, string) -> string, m: map<string, string>, k: int)
    requires 0 <= k < |statements|
    ensures g(k, h(statements[k])) == "" && (forall j :: 0 <= j < k ==> g(j, h(statements[j])) != "") ==>
      Publish(h, statements, Generator(g)) == Thrown(NonceMapMalformed(statements[k]))
    ensures !HasNonceFor(m, h(statements[k])) && (forall j :: 0 <= j < k ==> HasNonceFor(m, h(statements[j]))) ==>
      Publish(h, statements, Nonces(m)) == Thrown(NonceMapMalformed(statements[k]))
  {
    if g(k, h(statements[k])) == "" && forall j :: 0 <= j < k ==> g(j, h(statements[j])) != "" {
      PublishFails(h, statements, Generator(g), k);
    }
    if !HasNonceFor(m, h(statements[k])) && forall j :: 0 <= j < k ==> HasNonceFor(m, h(statements[j])) {
      PublishFails(h, statements, Nonces(m), k);
    }
  }

  predicate HasNonceFor(m: map<string, string>, d: string) {
    d in m && m[d] != ""
  }

  /** The causes, statement by statement: no nonce for its digest, or a salted hash that is not on the list. */
  function Causes(h: Hash, statements: seq<string>, nonces: map<string, string>, hashes: seq<string>): seq<Cause> {
    if statements == [] then []
    else
      var s := statements[0];
      (if !HasNonceFor(nonces, h(s)) then [NoProofForStatement(s)]
       else if h(nonces[h(s)] + h(s)) !in hashes then [InvalidProofForStatement(s)]
       else []) + Causes(h, statements[1..], nonces, hashes)
  }

  lemma {:induction false} CausesAppend(h: Hash, a: seq<string>, s: string, nonces: map<string, string>,
                                        hashes: seq<string>)
    ensures Causes(h, a + [s], nonces, hashes) == Causes(h, a, nonces, hashes) + Causes(h, [s], nonces, hashes)
  {
    if a == [] {
      assert [] + [s] == [s];
    } else {
      assert (a + [s])[1..] == a[1..] + [s];
      CausesAppend(h, a[1..], s, nonces, hashes);
    }
  }

  lemma {:induction false} ObjectionsAre(h: Hash, statements: seq<string>, nonces: map<string, string>,
                                         hashes: seq<string>)
    ensures Objections(HashStatements(h, statements, Nonces(nonces)), nonces, hashes) ==
      Causes(h, statements, nonces, hashes)
  {
    if statements != [] {
      var n := |statements| - 1;
      var front, es := statements[..n], HashStatements(h, statements, Nonces(nonces));
      ObjectionsAre(h, front, nonces, hashes);
      assert es[..n] == HashStatements(h, front, Nonces(nonces));
      EntryIs(h, statements, Nonces(nonces), n);
      CausesAppend(h, front, statements[n], nonces, hashes);
      assert front + [statements[n]] == statements;
      LastCause(h, statements[n], es[n], nonces, hashes);
    }
  }

  lemma LastCause(h: Hash, s: string, e: Hashed, nonces: map<string, string>, hashes: seq<string>)
    requires var n := if h(s) in nonces then Some(nonces[h(s)]) else None;
      e == Hashed(h(s), s, h(NonceText(n) + h(s)), n)
    ensures Causes(h, [s], nonces, hashes) ==
      if Objection(e, nonces, hashes).Some? then [Objection(e, nonces, hashes).value] else []
  {
    assert [s][1..] == [];
  }

  /** Verification throws all the causes, in the order of the statements, or returns if there are none. */
  lemma VerifyCauses(h: Hash, statements: seq<string>, nonces: map<string, string>, hashes: seq<string>)
    ensures Verify(h, statements, nonces, hashes) ==
      if Causes(h, statements, nonces, hashes) == [] then Ok(())
      else Thrown(ContentUnverifiable(Causes(h, statements, nonces, hashes)))
  {
    ObjectionsAre(h, statements, nonces, hashes);
  }

  // ---------- what the proof proves ----------

  /** The strings a run of `hashStatements` hashes. */
  ghost function HashedStrings(h: Hash, statements: seq<string>, src: NonceSource): set<string> {
    var es := HashStatements(h, statements, src);
    (set i | 0 <= i < |es| :: es[i].statement) +
    (set i | 0 <= i < |es| :: NonceText(es[i].nonce) + es[i].digest)
  }

  lemma AreHashed(h: Hash, statements: seq<string>, src: NonceSource, i: int)
    requires 0 <= i < |statements|
    ensures var n := NonceText(GetNonce(src, i, h(statements[i])));
      && HashStatements(h, statements, src)[i].nonce == GetNonce(src, i, h(statements[i]))
      && statements[i] in HashedStrings(h, statements, src)
      && n + h(statements[i]) in HashedStrings(h, statements, src)
  {
    assert "" + statements[i] == statements[i];
    var e := HashStatements(h, statements, src)[i];
    assert e.statement in HashedStrings(h, statements, src);
    assert NonceText(e.nonce) + e.digest in HashedStrings(h, statements, src);
  }

  ghost predicate CollisionFree(h: Hash, texts: set<string>) {
    forall a, b :: a in texts && b in texts && h(a) == h(b) ==> a == b
  }

  /** Digests have one width, so a salted text splits in one way only. */
  lemma SaltSplits(n: string, d: Digest, m: string, e: Digest)
    requires n + d == m + e
    ensures n == m && d == e
  {
    assert |n| == |m|;
    assert (n + d)[..|n|] == n && (m + e)[..|m|] == m;
    assert (n + d)[|n|..] == d && (m + e)[|m|..] == e;
  }

  lemma PublishedHash(h: Hash, issued: seq<string>, src: NonceSource, x: Digest)
    requires Publish(h, issued, src).Ok?
    ensures var es := HashStatements(h, issued, src);
      x in Publish(h, issued, src).value.hashes <==> exists i :: 0 <= i < |es| && es[i].saltedHash == x
  {
    var es := HashStatements(h, issued, src);
    SameMembers(SortBy(HexOrder, Map(SaltedHashOf, es)), Map(SaltedHashOf, es), x);
    if i :| 0 <= i < |es| && es[i].saltedHash == x {
      assert Map(SaltedHashOf, es)[i] == x;
    }
  }

  /** Without collisions, equal salted hashes come from the same statement, whatever the two nonces are. */
  lemma SaltedMatch(h: Hash, texts: set<string>, s: string, n: string, t: string, m: string)
    requires CollisionFree(h, texts)
    requires s in texts && t in texts && n + h(s) in texts && m + h(t) in texts
    requires h(n + h(s)) == h(m + h(t))
    ensures s == t
  {
    SaltSplits(n, h(s), m, h(t));
  }

  /** What is accepted has the salted hash of something published. */
  lemma AcceptedHash(h: Hash, issued: seq<string>, src: NonceSource, s: string, n: string) returns (i: nat)
    requires Publish(h, issued, src).Ok? && h(n + h(s)) in Publish(h, issued, src).value.hashes
    ensures i < |issued| && h(NonceText(HashStatements(h, issued, src)[i].nonce) + h(issued[i])) == h(n + h(s))
  {
    var es := HashStatements(h, issued, src);
    PublishedHash(h, issued, src, h(n + h(s)));
    i :| 0 <= i < |es| && es[i].saltedHash == h(n + h(s));
    assert "" + issued[i] == issued[i];
  }

  /** Whatever nonces the prover supplies, an accepted statement was issued. */
  lemma AcceptedWasIssued(h: Hash, issued: seq<string>, src: NonceSource,
                          disclosed: seq<string>, nonces: map<string, string>, k: int)
    requires Publish(h, issued, src).Ok?
    requires Accepts(h, disclosed, nonces, Publish(h, issued, src).value.hashes)
    requires CollisionFree(h, HashedStrings(h, issued, src) + HashedStrings(h, disclosed, Nonces(nonces)))
    requires 0 <= k < |disclosed|
    ensures disclosed[k] in issued
  {
    var s := disclosed[k];
    var m := nonces[h(s)];
    var i := AcceptedHash(h, issued, src, s, m);
    AreHashed(h, issued, src, i);
    AreHashed(h, disclosed, Nonces(nonces), k);
    var texts := HashedStrings(h, issued, src) + HashedStrings(h, disclosed, Nonces(nonces));
    SaltedMatch(h, texts, issued[i], NonceText(HashStatements(h, issued, src)[i].nonce), s, m);
  }

  ghost predicate HasNonce(es: seq<Hashed>, i: int, d: string, n: string) {
    0 <= i < |es| && es[i].digest == d && NonceText(es[i].nonce) == n
  }

  /** The nonce map holds, for a digest, the nonce of some statement with that digest, and no other digests. */
  lemma {:induction false} NonceMapEntry(es: seq<Hashed>, d: string)
    ensures d in NonceMap(es) <==> exists i :: 0 <= i < |es| && es[i].digest == d
    ensures d in NonceMap(es) ==> exists i :: HasNonce(es, i, d, NonceMap(es)[d])
  {
    if es != [] {
      var n := |es| - 1;
      var rest := es[..n];
      NonceMapEntry(rest, d);
      if es[n].digest == d {
        assert HasNonce(es, n, d, NonceMap(es)[d]);
      } else if d in NonceMap(rest) {
        var i :| HasNonce(rest, i, d, NonceMap(rest)[d]);
        assert HasNonce(es, i, d, NonceMap(es)[d]);
      }
      if i :| 0 <= i < |es| && es[i].digest == d && i < n {
        assert rest[i].digest == d;
      }
    }
  }

  /** Among statements with one digest, the last one's nonce is in the map. */
  lemma {:induction false} LastNonceWins(es: seq<Hashed>, i: int)
    requires 0 <= i < |es| && forall j :: i < j < |es| ==> es[j].digest != es[i].digest
    ensures es[i].digest in NonceMap(es) && NonceMap(es)[es[i].digest] == NonceText(es[i].nonce)
  {
    var n := |es| - 1;
    if i < n {
      LastNonceWins(es[..n], i);
    }
  }

  /** Part of the published nonces, enough for the statements to be disclosed. */
  ghost predicate CoversNonces(h: Hash, part: map<string, string>, all: map<string, string>, disclosed: seq<string>) {
    && (forall d :: d in part ==> d in all && part[d] == all[d])
    && (forall i :: 0 <= i < |disclosed| ==> h(disclosed[i]) in part)
  }

  /** Statements that were issued are accepted, even if the hash collides. */
  lemma IssuedAreAccepted(h: Hash, issued: seq<string>, src: NonceSource,
                          disclosed: seq<string>, nonces: map<string, string>)
    requires Publish(h, issued, src).Ok?
    requires forall s :: s in disclosed ==> s in issued
    requires CoversNonces(h, nonces, Publish(h, issued, src).value.nonceMap, disclosed)
    ensures Accepts(h, disclosed, nonces, Publish(h, issued, src).value.hashes)
  {
    var es := HashStatements(h, issued, src);
    forall k | 0 <= k < |disclosed|
      ensures var d := h(disclosed[k]);
        d in nonces && nonces[d] != "" && h(nonces[d] + d) in Publish(h, issued, src).value.hashes
    {
      var d := h(disclosed[k]);
      NonceMapEntry(es, d);
      var i :| HasNonce(es, i, d, NonceMap(es)[d]);
      assert Truthy(es[i].nonce);
      PublishedHash(h, issued, src, es[i].saltedHash);
    }
  }

  // ---------- the published list is determined by the set of statements ----------

  /** With nonces from a map, the order of the statements leaves no trace in what is published. */
  lemma PublishForgetsOrder(h: Hash, a: seq<string>, b: seq<string>, nonces: map<string, string>)
    requires multiset(a) == multiset(b)
    requires Publish(h, a, Nonces(nonces)).Ok?
    ensures Publish(h, b, Nonces(nonces)) == Publish(h, a, Nonces(nonces))
  {
    var f := (s: string) => HashStatement(h, Nonces(nonces), 0, s);
    var es, fs := HashStatements(h, a, Nonces(nonces)), HashStatements(h, b, Nonces(nonces));
    assert es == Map(f, a) && fs == Map(f, b);
    MapPermutes(f, a, b);
    SamePublication(es, fs);
  }

  ghost predicate DigestFixesNonce(es: seq<Hashed>) {
    forall e, f :: e in es && f in es && e.digest == f.digest ==> e.nonce == f.nonce
  }

  lemma NonceMapOf(es: seq<Hashed>, e: Hashed)
    requires DigestFixesNonce(es) && e in es
    ensures e.digest in NonceMap(es) && NonceMap(es)[e.digest] == NonceText(e.nonce)
  {
    NonceMapEntry(es, e.digest);
    var i :| HasNonce(es, i, e.digest, NonceMap(es)[e.digest]);
    assert es[i] in es;
  }

  lemma NonceMapWithin(es: seq<Hashed>, fs: seq<Hashed>, d: string)
    requires DigestFixesNonce(fs) && forall e :: e in es ==> e in fs
    requires d in NonceMap(es)
    ensures d in NonceMap(fs) && NonceMap(fs)[d] == NonceMap(es)[d]
  {
    NonceMapEntry(es, d);
    var i :| HasNonce(es, i, d, NonceMap(es)[d]);
    NonceMapOf(fs, es[i]);
  }

  lemma SameHashes(es: seq<Hashed>, fs: seq<Hashed>)
    requires multiset(es) == multiset(fs)
    ensures SortBy(HexOrder, Map(SaltedHashOf, es)) == SortBy(HexOrder, Map(SaltedHashOf, fs))
  {
    MapPermutes(SaltedHashOf, es, fs);
    HexOrderInjective(Map(SaltedHashOf, es));
    SortForgetsOrder(HexOrder, Map(SaltedHashOf, es), Map(SaltedHashOf, fs));
  }

  lemma SameNonceMap(es: seq<Hashed>, fs: seq<Hashed>)
    requires DigestFixesNonce(es) && forall e :: e in es <==> e in fs
    ensures NonceMap(es) == NonceMap(fs)
  {
    forall d | d in NonceMap(es) ensures d in NonceMap(fs) && NonceMap(fs)[d] == NonceMap(es)[d] {
      NonceMapWithin(es, fs, d);
    }
    forall d | d in NonceMap(fs) ensures d in NonceMap(es) {
      NonceMapWithin(fs, es, d);
    }
  }

  lemma SamePublication(es: seq<Hashed>, fs: seq<Hashed>)
    requires multiset(es) == multiset(fs)
    requires FirstWithoutNonce(es) == |es|
    requires DigestFixesNonce(es)
    ensures FirstWithoutNonce(fs) == |fs|
    ensures SortBy(HexOrder, Map(SaltedHashOf, es)) == SortBy(HexOrder, Map(SaltedHashOf, fs))
    ensures NonceMap(es) == NonceMap(fs)
  {
    forall f ensures f in es <==> f in fs { SameMembers(es, fs, f); }
    SameHashes(es, fs);
    SameNonceMap(es, fs);
    forall i | 0 <= i < |fs| ensures Truthy(fs[i].nonce) {
      assert fs[i] in es;
    }
    FirstIs(fs, |fs|);
  }

  /** Hashing again with the published nonces publishes the same, unless digests collide under fresh nonces. */
  lemma PublishAgain(h: Hash, statements: seq<string>, src: NonceSource)
    requires Publish(h, statements, src).Ok?
    requires src.Nonces? || forall i, j :: 0 <= i < j < |statements| ==> h(statements[i]) != h(statements[j])
    ensures Publish(h, statements, Nonces(Publish(h, statements, src).value.nonceMap)) == Publish(h, statements, src)
  {
    var es := HashStatements(h, statements, src);
    var m := NonceMap(es);
    forall i | 0 <= i < |statements| ensures "" + statements[i] == statements[i] && es[i].digest == h(statements[i]) {
    }
    assert DigestFixesNonce(es);
    forall i | 0 <= i < |statements| ensures HashStatement(h, Nonces(m), i, statements[i]) == es[i] {
      NonceMapOf(es, es[i]);
      assert Truthy(es[i].nonce);
    }
    assert HashStatements(h, statements, Nonces(m)) == es;
  }
}
