/** The W3C DID document exported from the SDK's document. */
module DidExport {
  import opened DidKeys
  import opened DidUri
  import opened Texts
  import opened Wrappers

  /** A verification method; a key type missing from the table leaves the type undefined. */
  datatype Method = Method(id: string, controller: string, methodType: Option<string>, publicKeyBase58: string)

  datatype Exported = Exported(
    id: string,
    verificationMethod: seq<Method>,
    authentication: seq<string>,
    assertionMethod: Option<seq<string>>,
    capabilityDelegation: Option<seq<string>>,
    keyAgreement: Option<seq<string>>)

  function VerificationType(t: KeyType): Option<string> {
    match t
    case Sr25519 => Some("Sr25519VerificationKey2020")
    case Ed25519 => Some("Ed25519VerificationKey2018")
    case Ecdsa => Some("EcdsaSecp256k1VerificationKey2019")
    case X25519 => None
  }

  function EncryptionType(t: KeyType): Option<string> {
    match t
    case X25519 => Some("X25519KeyAgreementKey2019")
    case _ => None
  }

  type Encoder = Bytes -> string

  function MethodOf(b58: Encoder, controller: string, methodType: Option<string>, k: DidKey): Method {
    Method(controller + k.id, controller, methodType, b58(k.publicKey))
  }

  /** The keys of a list without undefined entries. */
  function Present(keys: seq<MaybeKey>): (r: seq<DidKey>)
    requires AllSome(keys)
    ensures |r| == |keys| && forall i :: 0 <= i < |r| ==> keys[i] == Some(r[i])
  {
    seq(|keys|, i requires 0 <= i < |keys| => keys[i].value)
  }

  predicate AllSome(keys: seq<MaybeKey>) {
    forall i :: 0 <= i < |keys| ==> keys[i].Some?
  }

  function Methods(b58: Encoder, controller: string, signing: seq<DidKey>, agreement: seq<DidKey>): (r: seq<Method>)
    ensures |r| == |signing| + |agreement|
  {
    seq(|signing|, i requires 0 <= i < |signing| =>
      MethodOf(b58, controller, VerificationType(signing[i].keyType), signing[i])) +
    seq(|agreement|, i requires 0 <= i < |agreement| =>
      MethodOf(b58, controller, EncryptionType(agreement[i].keyType), agreement[i]))
  }

  predicate HasId(ms: seq<Method>, id: string) {
    exists i :: 0 <= i < |ms| && ms[i].id == id
  }

  /** `.filter(({ id }, index, array) => index === array.findIndex((key) => key.id === id))` */
  function Deduplicate(ms: seq<Method>): seq<Method> {
    if ms == [] then []
    else
      var n := |ms| - 1;
      var front := Deduplicate(ms[..n]);
      if HasId(ms[..n], ms[n].id) then front else front + [ms[n]]
  }

  function FirstId(keys: seq<DidKey>): seq<string>
    requires keys != []
  {
    [keys[0].id]
  }

  function Reference(keys: seq<DidKey>): Option<seq<string>> {
    if keys == [] then None else Some(FirstId(keys))
  }

  predicate Exportable(doc: Document) {
    AllSome(GetKeys(doc)) && doc.authentication != []
  }

  /** `exportToJsonDidDocument` without services; on other documents it throws. */
  function ExportToJson(b58: Encoder, doc: Document): Exported
    requires Exportable(doc)
  {
    PartsPresent(doc);
    var authentication := Present(doc.authentication);
    var assertionMethod, capabilityDelegation, keyAgreement :=
      Present(OrEmpty(doc.assertionMethod)), Present(OrEmpty(doc.capabilityDelegation)),
      Present(OrEmpty(doc.keyAgreement));
    var methods := Methods(b58, doc.uri, authentication + assertionMethod + capabilityDelegation, keyAgreement);
    Exported(doc.uri, Deduplicate(methods), FirstId(authentication),
             Reference(assertionMethod), Reference(capabilityDelegation), Reference(keyAgreement))
  }

  lemma PartsPresent(doc: Document)
    requires AllSome(GetKeys(doc))
    ensures AllSome(doc.authentication) && AllSome(OrEmpty(doc.assertionMethod))
    ensures AllSome(OrEmpty(doc.capabilityDelegation)) && AllSome(OrEmpty(doc.keyAgreement))
  {
    var a, b := doc.authentication, OrEmpty(doc.assertionMethod);
    var c, e := OrEmpty(doc.capabilityDelegation), OrEmpty(doc.keyAgreement);
    var g := GetKeys(doc);
    assert forall i :: 0 <= i < |a| ==> a[i] == g[i];
    assert forall i :: 0 <= i < |b| ==> b[i] == g[|a| + i];
    assert forall i :: 0 <= i < |c| ==> c[i] == g[|a| + |b| + i];
    assert forall i :: 0 <= i < |e| ==> e[i] == g[|a| + |b| + |c| + i];
  }

  // ---------- the filter ----------

  ghost predicate DistinctMethods(ms: seq<Method>) {
    forall i, j :: 0 <= i < j < |ms| ==> ms[i].id != ms[j].id
  }

  /** The first method with the id. */
  ghost predicate IsFirst(ms: seq<Method>, m: Method) {
    exists i :: 0 <= i < |ms| && ms[i] == m && forall j :: 0 <= j < i ==> ms[j].id != m.id
  }

  /** What is left has distinct ids, and is for each id the first method that had it. */
  lemma {:induction false} DeduplicateIs(ms: seq<Method>, m: Method)
    ensures DistinctMethods(Deduplicate(ms))
    ensures m in Deduplicate(ms) <==> IsFirst(ms, m)
    ensures forall id :: HasId(Deduplicate(ms), id) <==> HasId(ms, id)
  {
    if ms != [] {
      var n := |ms| - 1;
      var rest := ms[..n];
      var front := Deduplicate(rest);
      DeduplicateIs(rest, m);
      forall id ensures HasId(Deduplicate(ms), id) <==> HasId(ms, id) {
        HasIdAppend(rest, ms[n], id);
        HasIdAppend(front, ms[n], id);
        assert ms == rest + [ms[n]];
      }
      FirstAppend(rest, ms[n], m);
      assert ms == rest + [ms[n]];
      if !HasId(rest, ms[n].id) {
        assert forall i :: 0 <= i < n ==> rest[i].id != ms[n].id;
        forall i | 0 <= i < |front| ensures front[i].id != ms[n].id {
          assert HasId(front, front[i].id);
        }
      }
    }
  }

  lemma HasIdAppend(ms: seq<Method>, m: Method, id: string)
    ensures HasId(ms + [m], id) <==> HasId(ms, id) || m.id == id
  {
    var ns := ms + [m];
    assert ns[|ms|] == m;
    if i :| 0 <= i < |ms| && ms[i].id == id {
      assert ns[i].id == id;
    }
  }

  lemma FirstAppend(ms: seq<Method>, last: Method, m: Method)
    ensures IsFirst(ms + [last], m) <==> IsFirst(ms, m) || (m == last && !HasId(ms, m.id))
  {
    var ns := ms + [last];
    if i :| 0 <= i < |ns| && ns[i] == m && forall j :: 0 <= j < i ==> ns[j].id != m.id {
      if i < |ms| {
        assert ms[i] == m && forall j :: 0 <= j < i ==> ms[j].id == ns[j].id;
      } else {
        assert forall j :: 0 <= j < |ms| ==> ms[j] == ns[j];
      }
    }
    if i :| 0 <= i < |ms| && ms[i] == m && forall j :: 0 <= j < i ==> ms[j].id != m.id {
      assert ns[i] == m && forall j :: 0 <= j < i ==> ns[j].id == ms[j].id;
    }
    if m == last && !HasId(ms, m.id) {
      assert ns[|ms|] == m && forall j :: 0 <= j < |ms| ==> ns[j] == ms[j];
    }
  }

  // ---------- export against lookup ----------

  function Signing(doc: Document): (r: seq<DidKey>)
    requires Exportable(doc)
  {
    PartsPresent(doc);
    Present(doc.authentication) + Present(OrEmpty(doc.assertionMethod)) + Present(OrEmpty(doc.capabilityDelegation))
  }

  function Agreement(doc: Document): (r: seq<DidKey>)
    requires Exportable(doc)
  {
    PartsPresent(doc);
    Present(OrEmpty(doc.keyAgreement))
  }

  /** The methods before the filter: one for each key of `getKeys`, in the same order. */
  ghost function AllMethods(b58: Encoder, doc: Document): seq<Method>
    requires Exportable(doc)
  {
    Methods(b58, doc.uri, Signing(doc), Agreement(doc))
  }

  function TypeAt(doc: Document, i: nat, t: KeyType): Option<string>
    requires Exportable(doc)
  {
    if i < |Signing(doc)| then VerificationType(t) else EncryptionType(t)
  }

  lemma MethodAt(b58: Encoder, doc: Document, i: nat)
    requires Exportable(doc) && i < |GetKeys(doc)|
    ensures |AllMethods(b58, doc)| == |GetKeys(doc)|
    ensures var k := GetKeys(doc)[i].value;
      AllMethods(b58, doc)[i] == MethodOf(b58, doc.uri, TypeAt(doc, i, k.keyType), k)
  {
    PartsPresent(doc);
    assert Signing(doc) + Agreement(doc) == Present(GetKeys(doc));
    var n := |Signing(doc)|;
    assert Present(GetKeys(doc))[i] == if i < n then Signing(doc)[i] else Agreement(doc)[i - n];
  }

  lemma {:induction false} FindKeyFirst(keys: seq<MaybeKey>, id: string) returns (i: nat)
    requires AllSome(keys)
    ensures i <= |keys| && forall j :: 0 <= j < i ==> keys[j].value.id != id
    ensures i < |keys| ==> keys[i].value.id == id && FindKey(keys, id) == Hit(keys[i].value)
    ensures i == |keys| ==> FindKey(keys, id) == Miss
  {
    if keys == [] || keys[0].value.id == id {
      return 0;
    }
    i := FindKeyFirst(keys[1..], id);
    i := i + 1;
  }

  /** The first key with the id is the one lookup finds, and it is exported under its list's type table. */
  ghost predicate ExportsFound(b58: Encoder, doc: Document, id: string, ms: seq<Method>)
    requires Exportable(doc)
  {
    exists i :: 0 <= i < |GetKeys(doc)| && FirstWithId(GetKeys(doc), i, id) && ExportsKey(b58, doc, i, id, ms)
  }

  ghost predicate FirstWithId(keys: seq<MaybeKey>, i: nat, id: string)
    requires i < |keys| && AllSome(keys)
  {
    keys[i].value.id == id && forall j :: 0 <= j < i ==> keys[j].value.id != id
  }

  predicate ExportsKey(b58: Encoder, doc: Document, i: nat, id: string, ms: seq<Method>)
    requires Exportable(doc) && i < |GetKeys(doc)|
  {
    var k := GetKeys(doc)[i].value;
    GetKey(doc, id) == Hit(k) && MethodOf(b58, doc.uri, TypeAt(doc, i, k.keyType), k) in ms
  }

  /**
   * Exported ids are distinct; an id is exported exactly when lookup finds it, and then with the key material
   * that lookup finds, under the type table of the list in which it comes first.
   */
  lemma ExportAgreesWithLookup(b58: Encoder, doc: Document, id: string)
    requires Exportable(doc)
    ensures var ms := ExportToJson(b58, doc).verificationMethod;
      && DistinctMethods(ms)
      && (HasId(ms, doc.uri + id) <==> GetKey(doc, id).Hit?)
      && (GetKey(doc, id).Hit? ==> ExportsFound(b58, doc, id, ms))
  {
    var all := AllMethods(b58, doc);
    var keys := GetKeys(doc);
    assert ExportToJson(b58, doc).verificationMethod == Deduplicate(all);
    forall i: nat | i < |keys| ensures |all| == |keys| && all[i].id == doc.uri + keys[i].value.id {
      MethodAt(b58, doc, i);
    }
    assert |all| == |keys| by {
      if |keys| > 0 { MethodAt(b58, doc, 0); }
    }
    var i := FindKeyFirst(keys, id);
    var m := if i < |keys| then all[i] else Method("", "", None, "");
    DeduplicateIs(all, m);
    if i < |keys| {
      MethodAt(b58, doc, i);
      forall j | 0 <= j < i ensures all[j].id != m.id {
        if all[j].id == m.id { DropSame(doc.uri, keys[j].value.id, id); }
      }
      assert IsFirst(all, m);
      assert HasId(all, doc.uri + id);
      assert FirstWithId(keys, i, id) && ExportsKey(b58, doc, i, id, Deduplicate(all));
    } else if j :| 0 <= j < |all| && all[j].id == doc.uri + id {
      DropSame(doc.uri, keys[j].value.id, id);
    }
  }

  lemma KeyIsExported(b58: Encoder, doc: Document, k: DidKey)
    requires Exportable(doc) && Some(k) in GetKeys(doc)
    ensures HasId(ExportToJson(b58, doc).verificationMethod, doc.uri + k.id)
  {
    var keys := GetKeys(doc);
    ExportAgreesWithLookup(b58, doc, k.id);
    var i := FindKeyFirst(keys, k.id);
    var j :| 0 <= j < |keys| && keys[j] == Some(k);
  }

  /** Every reference of the export names an exported method. */
  lemma ReferencesAreExported(b58: Encoder, doc: Document, ref: string)
    requires Exportable(doc)
    requires var e := ExportToJson(b58, doc);
      || ref in e.authentication
      || (e.assertionMethod.Some? && ref in e.assertionMethod.value)
      || (e.capabilityDelegation.Some? && ref in e.capabilityDelegation.value)
      || (e.keyAgreement.Some? && ref in e.keyAgreement.value)
    ensures HasId(ExportToJson(b58, doc).verificationMethod, doc.uri + ref)
  {
    PartsPresent(doc);
    var e := ExportToJson(b58, doc);
    var l := if ref in e.authentication then doc.authentication
             else if e.assertionMethod.Some? && ref in e.assertionMethod.value then OrEmpty(doc.assertionMethod)
             else if e.capabilityDelegation.Some? && ref in e.capabilityDelegation.value then
               OrEmpty(doc.capabilityDelegation)
             else OrEmpty(doc.keyAgreement);
    assert l != [] && l[0].Some? && l[0].value.id == ref;
    assert l[0] in GetKeys(doc);
    KeyIsExported(b58, doc, l[0].value);
  }

  /** Only the first key agreement key is referenced: if ids are distinct, all are exactly when there is just one. */
  lemma AgreementReferences(b58: Encoder, doc: Document)
    requires Exportable(doc) && Agreement(doc) != []
    ensures var e, ks := ExportToJson(b58, doc), Agreement(doc);
      && e.keyAgreement.Some?
      && ((forall k :: k in ks ==> k.id in e.keyAgreement.value) <==> forall k :: k in ks ==> k.id == ks[0].id)
      && (DistinctKeyIds(ks) ==> ((forall k :: k in ks ==> k.id in e.keyAgreement.value) <==> |ks| == 1))
  {
    PartsPresent(doc);
    var ks := Agreement(doc);
    if |ks| > 1 {
      assert ks[1] in ks;
    }
  }

  ghost predicate DistinctKeyIds(ks: seq<DidKey>) {
    forall i, j :: 0 <= i < j < |ks| ==> ks[i].id != ks[j].id
  }

  /** The key stored for a listed id, as the document has it. */
  lemma LookedUpKey(d: ChainDetails, r: Relation, id: string)
    requires Closed(d) && Lists(d, r, id)
    ensures var keys := KeyRecord(d.publicKeys); Lookup(keys, id).Some? && Lookup(keys, id).value.id == "#" + id
  {
    KeyRecordIs(d.publicKeys, id);
    RecordId(d.publicKeys, id);
  }

  /** Each relationship of the export references the key that the chain has under that relationship. */
  lemma ReferencesAreTheChains(b58: Encoder, uri: string, d: ChainDetails)
    requires Closed(d)
    ensures Exportable(DocumentOf(uri, d))
    ensures var e := ExportToJson(b58, DocumentOf(uri, d));
      && e.id == uri
      && e.authentication == ["#" + d.authenticationKey]
      && e.assertionMethod == (if d.assertionKey.Some? then Some(["#" + d.assertionKey.value]) else None)
      && e.capabilityDelegation == (if d.delegationKey.Some? then Some(["#" + d.delegationKey.value]) else None)
      && e.keyAgreement == (if d.keyAgreementKeys != [] then Some(["#" + d.keyAgreementKeys[0]]) else None)
  {
    var doc := DocumentOf(uri, d);
    DocumentPresent(uri, d);
    assert forall i :: 0 <= i < |GetKeys(doc)| ==> GetKeys(doc)[i] in GetKeys(doc);
    PartsPresent(doc);
    LookedUpKey(d, Authentication, d.authenticationKey);
    if d.assertionKey.Some? {
      LookedUpKey(d, AssertionMethod, d.assertionKey.value);
    }
    if d.delegationKey.Some? {
      LookedUpKey(d, CapabilityDelegation, d.delegationKey.value);
    }
    if d.keyAgreementKeys != [] {
      LookedUpKey(d, KeyAgreement, d.keyAgreementKeys[0]);
    }
  }

  /** The chain lists the id under a relation whose keys sign. */
  predicate Signs(d: ChainDetails, id: string) {
    d.authenticationKey == id || d.assertionKey == Some(id) || d.delegationKey == Some(id)
  }

  lemma SigningKeys(uri: string, d: ChainDetails, id: string, i: nat)
    requires Closed(d) && Exportable(DocumentOf(uri, d)) && i < |GetKeys(DocumentOf(uri, d))|
    requires FirstWithId(GetKeys(DocumentOf(uri, d)), i, "#" + id)
    ensures i < |Signing(DocumentOf(uri, d))| <==> Signs(d, id)
  {
    var doc := DocumentOf(uri, d);
    var keys, signing := GetKeys(doc), Signing(doc);
    PartsPresent(doc);
    assert forall j :: 0 <= j < |signing| ==> keys[j] == Some(signing[j]);
    if i < |signing| {
      SigningIsListed(uri, d, id, i);
    }
    if Signs(d, id) {
      var j := ListedIsSigning(uri, d, id);
      assert keys[j].value.id == "#" + id;
    }
  }

  lemma SigningIsListed(uri: string, d: ChainDetails, id: string, i: nat)
    requires Closed(d) && Exportable(DocumentOf(uri, d)) && i < |Signing(DocumentOf(uri, d))|
    requires Signing(DocumentOf(uri, d))[i].id == "#" + id
    ensures Signs(d, id)
  {
    var keys := KeyRecord(d.publicKeys);
    var id' := if i == 0 then d.authenticationKey
               else if i == 1 && d.assertionKey.Some? then d.assertionKey.value else d.delegationKey.value;
    LookedUpKey(d, Authentication, d.authenticationKey);
    if d.assertionKey.Some? {
      LookedUpKey(d, AssertionMethod, d.assertionKey.value);
    }
    if d.delegationKey.Some? {
      LookedUpKey(d, CapabilityDelegation, d.delegationKey.value);
    }
    DropSame("#", id, id');
  }

  lemma ListedIsSigning(uri: string, d: ChainDetails, id: string) returns (i: nat)
    requires Closed(d) && Exportable(DocumentOf(uri, d)) && Signs(d, id)
    ensures i < |Signing(DocumentOf(uri, d))| && Signing(DocumentOf(uri, d))[i].id == "#" + id
  {
    if d.authenticationKey == id {
      LookedUpKey(d, Authentication, id);
      i := 0;
    } else if d.assertionKey == Some(id) {
      LookedUpKey(d, AssertionMethod, id);
      i := 1;
    } else {
      LookedUpKey(d, CapabilityDelegation, id);
      i := if d.assertionKey.Some? then 2 else 1;
    }
  }

  /** The W3C name of a key type: one table for keys that sign, another for those that only agree on keys. */
  lemma TypeNames(t: KeyType)
    ensures VerificationType(Sr25519) == Some("Sr25519VerificationKey2020")
    ensures VerificationType(Ed25519) == Some("Ed25519VerificationKey2018")
    ensures VerificationType(Ecdsa) == Some("EcdsaSecp256k1VerificationKey2019")
    ensures EncryptionType(X25519) == Some("X25519KeyAgreementKey2019")
    ensures VerificationType(t).Some? <==> t != X25519
    ensures EncryptionType(t).Some? <==> t == X25519
  {
  }

  /** A listed id is exported once, under its DID, with the stored bytes in base58 and its type's name. */
  lemma ExportedMaterial(b58: Encoder, uri: string, d: ChainDetails, i: nat)
    requires Closed(d) && DistinctIds(d.publicKeys) && i < |d.publicKeys|
    requires exists r :: Lists(d, r, d.publicKeys[i].0)
    ensures Exportable(DocumentOf(uri, d))
    ensures var (id, key) := d.publicKeys[i];
      var t := if Signs(d, id) then VerificationType(key.keyType) else EncryptionType(key.keyType);
      Method(uri + ("#" + id), uri, t, b58(key.value)) in ExportToJson(b58, DocumentOf(uri, d)).verificationMethod
  {
    var doc, id := DocumentOf(uri, d), d.publicKeys[i].0;
    DocumentPresent(uri, d);
    assert forall j :: 0 <= j < |GetKeys(doc)| ==> GetKeys(doc)[j] in GetKeys(doc);
    ScanAll(uri, d, id);
    ExportAgreesWithLookup(b58, doc, "#" + id);
    var ms := ExportToJson(b58, doc).verificationMethod;
    var j :| 0 <= j < |GetKeys(doc)| && FirstWithId(GetKeys(doc), j, "#" + id) && ExportsKey(b58, doc, j, "#" + id, ms);
    SigningKeys(uri, d, id, j);
    KeyRecordIs(d.publicKeys, id);
  }

  function Ids(ms: seq<Method>): (ids: seq<string>)
    ensures |ids| == |ms| && forall i :: 0 <= i < |ms| ==> ids[i] == ms[i].id
  {
    seq(|ms|, i requires 0 <= i < |ms| => ms[i].id)
  }

  /** Each id where it comes first. */
  function Firsts(ids: seq<string>): seq<string> {
    if ids == [] then []
    else
      var n := |ids| - 1;
      if ids[n] in ids[..n] then Firsts(ids[..n]) else Firsts(ids[..n]) + [ids[n]]
  }

  lemma {:induction false} FirstIds(ms: seq<Method>)
    ensures Ids(Deduplicate(ms)) == Firsts(Ids(ms))
  {
    if ms != [] {
      var n := |ms| - 1;
      FirstIds(ms[..n]);
      assert Ids(ms)[..n] == Ids(ms[..n]);
      assert HasId(ms[..n], ms[n].id) <==> ms[n].id in Ids(ms[..n]);
    }
  }

  /** The ids of the authentication, assertion and delegation key. */
  function SigningIds(d: ChainDetails): seq<string> {
    [d.authenticationKey]
    + (if d.assertionKey.Some? then [d.assertionKey.value] else [])
    + (if d.delegationKey.Some? then [d.delegationKey.value] else [])
  }

  /** The ids under which the chain lists keys: authentication, assertion, delegation, agreement. */
  function ListedIds(uri: string, d: ChainDetails): seq<string> {
    var ids := SigningIds(d) + d.keyAgreementKeys;
    seq(|ids|, i requires 0 <= i < |ids| => uri + ("#" + ids[i]))
  }

  lemma AgreementListed(uri: string, d: ChainDetails)
    requires Closed(d) && Exportable(DocumentOf(uri, d))
    ensures var keys := Agreement(DocumentOf(uri, d));
      |keys| == |d.keyAgreementKeys| && forall i :: 0 <= i < |keys| ==> keys[i].id == "#" + d.keyAgreementKeys[i]
  {
    forall i | 0 <= i < |d.keyAgreementKeys|
      ensures var keys := Agreement(DocumentOf(uri, d));
        i < |keys| && keys[i].id == "#" + d.keyAgreementKeys[i]
    {
      LookedUpKey(d, KeyAgreement, d.keyAgreementKeys[i]);
    }
  }

  lemma SigningListed(uri: string, d: ChainDetails)
    requires Closed(d) && Exportable(DocumentOf(uri, d))
    ensures var keys, ids := Signing(DocumentOf(uri, d)), SigningIds(d);
      |keys| == |ids| && forall i :: 0 <= i < |keys| ==> keys[i].id == "#" + ids[i]
  {
    LookedUpKey(d, Authentication, d.authenticationKey);
    if d.assertionKey.Some? { LookedUpKey(d, AssertionMethod, d.assertionKey.value); }
    if d.delegationKey.Some? { LookedUpKey(d, CapabilityDelegation, d.delegationKey.value); }
  }

  lemma MethodsListed(b58: Encoder, uri: string, d: ChainDetails)
    requires Closed(d) && Exportable(DocumentOf(uri, d))
    ensures Ids(AllMethods(b58, DocumentOf(uri, d))) == ListedIds(uri, d)
  {
    var doc := DocumentOf(uri, d);
    PartsPresent(doc);
    SigningListed(uri, d);
    AgreementListed(uri, d);
    assert |AllMethods(b58, doc)| == |Signing(doc)| + |Agreement(doc)|;
    forall i | 0 <= i < |ListedIds(uri, d)| ensures AllMethods(b58, doc)[i].id == ListedIds(uri, d)[i] {
    }
  }

  /** The methods come in the order in which the chain's relations first name their ids. */
  lemma ExportOrder(b58: Encoder, uri: string, d: ChainDetails)
    requires Closed(d)
    ensures Exportable(DocumentOf(uri, d))
    ensures Ids(ExportToJson(b58, DocumentOf(uri, d)).verificationMethod) == Firsts(ListedIds(uri, d))
  {
    var doc := DocumentOf(uri, d);
    DocumentPresent(uri, d);
    assert forall i :: 0 <= i < |GetKeys(doc)| ==> GetKeys(doc)[i] in GetKeys(doc);
    MethodsListed(b58, uri, d);
    FirstIds(AllMethods(b58, doc));
  }

  /** All four views agree: an id is exported exactly when the chain lists it under some relation. */
  lemma ExportAgreesWithChain(b58: Encoder, uri: string, d: ChainDetails, id: string)
    requires Closed(d)
    ensures Exportable(DocumentOf(uri, d))
    ensures var ms := ExportToJson(b58, DocumentOf(uri, d)).verificationMethod;
      HasId(ms, uri + ("#" + id)) <==> exists r :: Lists(d, r, id)
  {
    var doc := DocumentOf(uri, d);
    DocumentPresent(uri, d);
    assert forall i :: 0 <= i < |GetKeys(doc)| ==> GetKeys(doc)[i] in GetKeys(doc);
    ExportAgreesWithLookup(b58, doc, "#" + id);
    ScanAll(uri, d, id);
  }
}
