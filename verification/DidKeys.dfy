/** One key set in four views: on chain, in the DID document, by resolution, and in the W3C export. */
module DidKeys {
  import opened DidUri
  import opened Texts
  import opened Wrappers

  // ---------- the chain's record ----------

  datatype KeyDetails =
    | PublicEncryptionKey(keyType: KeyType, value: Bytes)
    | PublicVerificationKey(keyType: KeyType, value: Bytes)

  /** Key ids are in their hex rendering. */
  datatype ChainDetails = ChainDetails(
    publicKeys: seq<(string, KeyDetails)>,
    authenticationKey: string,
    assertionKey: Option<string>,
    delegationKey: Option<string>,
    keyAgreementKeys: seq<string>)

  function KeyFromChain(keyId: string, details: KeyDetails): DidKey {
    DidKey("#" + keyId, details.value, details.keyType, None)
  }

  /** One leading `#` goes. */
  function ResourceIdToChain(id: string): string {
    if id != "" && id[0] == '#' then id[1..] else id
  }

  /** The keys by id; of several entries with one id the last counts. */
  function KeyRecord(publicKeys: seq<(string, KeyDetails)>): map<string, DidKey> {
    if publicKeys == [] then map[]
    else
      var (id, details) := publicKeys[|publicKeys| - 1];
      KeyRecord(publicKeys[..|publicKeys| - 1])[id := KeyFromChain(id, details)]
  }

  ghost predicate DistinctIds(publicKeys: seq<(string, KeyDetails)>) {
    forall i, j :: 0 <= i < j < |publicKeys| ==> publicKeys[i].0 != publicKeys[j].0
  }

  lemma {:induction false} KeyRecordIs(publicKeys: seq<(string, KeyDetails)>, id: string)
    ensures id in KeyRecord(publicKeys) <==> exists i :: 0 <= i < |publicKeys| && publicKeys[i].0 == id
    ensures DistinctIds(publicKeys) ==> forall i :: 0 <= i < |publicKeys| && publicKeys[i].0 == id ==>
      id in KeyRecord(publicKeys) && KeyRecord(publicKeys)[id] == KeyFromChain(id, publicKeys[i].1)
  {
    var n := |publicKeys|;
    if n > 0 {
      var rest := publicKeys[..n - 1];
      KeyRecordIs(rest, id);
      if i :| 0 <= i < n && publicKeys[i].0 == id && i < n - 1 {
        assert rest[i].0 == id;
      }
      assert DistinctIds(publicKeys) ==> DistinctIds(rest);
      forall i | DistinctIds(publicKeys) && 0 <= i < n && publicKeys[i].0 == id
        ensures id in KeyRecord(publicKeys) && KeyRecord(publicKeys)[id] == KeyFromChain(id, publicKeys[i].1)
      {
        if i < n - 1 {
          assert rest[i] == publicKeys[i];
          assert publicKeys[i].0 != publicKeys[n - 1].0;
        }
      }
    }
  }

  // ---------- the document ----------

  /** A key that the record did not hold is JavaScript's undefined. */
  type MaybeKey = Option<DidKey>

  datatype Document = Document(
    uri: string,
    authentication: seq<MaybeKey>,
    assertionMethod: Option<seq<MaybeKey>>,
    capabilityDelegation: Option<seq<MaybeKey>>,
    keyAgreement: Option<seq<MaybeKey>>)

  function Lookup(keys: map<string, DidKey>, id: string): MaybeKey {
    if id in keys then Some(keys[id]) else None
  }

  function Single(keys: map<string, DidKey>, id: Option<string>): Option<seq<MaybeKey>> {
    if id.Some? then Some([Lookup(keys, id.value)]) else None
  }

  function LookupAll(keys: map<string, DidKey>, ids: seq<string>): (r: seq<MaybeKey>)
    ensures |r| == |ids|
  {
    seq(|ids|, i requires 0 <= i < |ids| => Lookup(keys, ids[i]))
  }

  function DocumentOf(uri: string, d: ChainDetails): Document {
    var keys := KeyRecord(d.publicKeys);
    Document(uri, [Lookup(keys, d.authenticationKey)], Single(keys, d.assertionKey), Single(keys, d.delegationKey),
             if d.keyAgreementKeys == [] then None else Some(LookupAll(keys, d.keyAgreementKeys)))
  }

  /** `documentFromChain`, with the `uri` that `linkedInfoFromChain` puts in front. */
  method DocumentFromChain(uri: string, d: ChainDetails) returns (doc: Document)
    ensures doc == DocumentOf(uri, d)
  {
    var keys: map<string, DidKey> := map[];
    for i := 0 to |d.publicKeys|
      invariant keys == KeyRecord(d.publicKeys[..i])
    {
      var key := KeyFromChain(d.publicKeys[i].0, d.publicKeys[i].1);
      assert d.publicKeys[..i + 1][..i] == d.publicKeys[..i];
      assert ResourceIdToChain(key.id) == d.publicKeys[i].0;
      keys := keys[ResourceIdToChain(key.id) := key];
    }
    assert d.publicKeys[..|d.publicKeys|] == d.publicKeys;
    doc := Document(uri, [Lookup(keys, d.authenticationKey)], None, None, None);
    if d.assertionKey.Some? {
      doc := doc.(assertionMethod := Some([Lookup(keys, d.assertionKey.value)]));
    }
    if d.delegationKey.Some? {
      doc := doc.(capabilityDelegation := Some([Lookup(keys, d.delegationKey.value)]));
    }
    if |d.keyAgreementKeys| > 0 {
      doc := doc.(keyAgreement := Some(LookupAll(keys, d.keyAgreementKeys)));
    }
  }

  // ---------- lookup and resolution ----------

  datatype Relation = Authentication | CapabilityDelegation | AssertionMethod | KeyAgreement

  function OrEmpty(o: Option<seq<MaybeKey>>): seq<MaybeKey> {
    if o.Some? then o.value else []
  }

  function KeysUnder(doc: Document, r: Relation): seq<MaybeKey> {
    match r
    case Authentication => doc.authentication
    case AssertionMethod => OrEmpty(doc.assertionMethod)
    case CapabilityDelegation => OrEmpty(doc.capabilityDelegation)
    case KeyAgreement => OrEmpty(doc.keyAgreement)
  }

  function GetKeys(doc: Document): seq<MaybeKey> {
    doc.authentication + OrEmpty(doc.assertionMethod) + OrEmpty(doc.capabilityDelegation) + OrEmpty(doc.keyAgreement)
  }

  /** The result of a scan over keys that reads their ids: an undefined key on the way throws. */
  datatype Scan = Hit(key: DidKey) | Miss | Broken

  function FindKey(keys: seq<MaybeKey>, id: string): Scan {
    if keys == [] then Miss
    else if keys[0].None? then Broken
    else if keys[0].value.id == id then Hit(keys[0].value)
    else FindKey(keys[1..], id)
  }

  function GetKey(doc: Document, id: string): Scan {
    FindKey(GetKeys(doc), id)
  }

  datatype Error = InvalidDidFormat | NotAResource | Deactivated | KeyNotFound | NotUnderRelation | TypeError

  /** What the runtime call finds under an address. */
  type Chain = map<string, ChainDetails>

  /** `resolveKey`. Blacklisted and unknown DIDs alike have no document. */
  function ResolveKey(chain: Chain, keyUri: string, expected: Option<Relation>): Outcome<ResolvedKey, Error> {
    match Parse(keyUri)
    case None => Thrown(InvalidDidFormat)
    case Some(p) =>
      if p.fragment.None? then Thrown(NotAResource)
      else if p.address !in chain then Thrown(Deactivated)
      else
        var doc := DocumentOf(DID_PREFIX + p.address, chain[p.address]);
        match GetKey(doc, p.fragment.value)
        case Broken => Thrown(TypeError)
        case Miss => Thrown(KeyNotFound)
        case Hit(key) =>
          if expected.None? then Ok(KeyToResolvedKey(key, p.did))
          else
            match FindKey(KeysUnder(doc, expected.value), p.fragment.value)
            case Broken => Thrown(TypeError)
            case Miss => Thrown(NotUnderRelation)
            case Hit(_) => Ok(KeyToResolvedKey(key, p.did))
  }

  /** The chain lists the id under the relation. */
  predicate Lists(d: ChainDetails, r: Relation, id: string) {
    match r
    case Authentication => d.authenticationKey == id
    case AssertionMethod => d.assertionKey == Some(id)
    case CapabilityDelegation => d.delegationKey == Some(id)
    case KeyAgreement => id in d.keyAgreementKeys
  }

  /** Every id that a relation lists has an entry among the public keys. */
  ghost predicate Closed(d: ChainDetails) {
    forall r, id :: Lists(d, r, id) ==> exists i :: 0 <= i < |d.publicKeys| && d.publicKeys[i].0 == id
  }

  ghost predicate AllPresent(keys: seq<MaybeKey>) {
    forall k :: k in keys ==> k.Some?
  }

  lemma {:induction false} FindKeyIs(keys: seq<MaybeKey>, id: string)
    requires AllPresent(keys)
    ensures FindKey(keys, id).Hit? <==> exists k :: k in keys && k.value.id == id
    ensures FindKey(keys, id).Hit? ==> Some(FindKey(keys, id).key) in keys && FindKey(keys, id).key.id == id
    ensures !FindKey(keys, id).Broken?
  {
    if keys != [] {
      assert keys[0] in keys;
      FindKeyIs(keys[1..], id);
      forall k | k in keys ensures k == keys[0] || k in keys[1..] {
        var i :| 0 <= i < |keys| && keys[i] == k;
        assert i > 0 ==> keys[1..][i - 1] == k;
      }
    }
  }

  /** Under a relation the document holds exactly the entries of the listed ids. */
  lemma KeysUnderAre(uri: string, d: ChainDetails, r: Relation, k: MaybeKey)
    requires Closed(d)
    ensures k in KeysUnder(DocumentOf(uri, d), r) <==>
      exists id :: Lists(d, r, id) && id in KeyRecord(d.publicKeys) && k == Some(KeyRecord(d.publicKeys)[id])
  {
    var keys := KeyRecord(d.publicKeys);
    forall id | Lists(d, r, id) ensures id in keys { KeyRecordIs(d.publicKeys, id); }
    if r == KeyAgreement {
      var ids := d.keyAgreementKeys;
      if k in KeysUnder(DocumentOf(uri, d), r) {
        var i :| 0 <= i < |ids| && LookupAll(keys, ids)[i] == k;
        assert Lists(d, r, ids[i]);
      }
      if id :| Lists(d, r, id) && id in keys && k == Some(keys[id]) {
        var i :| 0 <= i < |ids| && ids[i] == id;
        assert LookupAll(keys, ids)[i] == k;
      }
    } else if k in KeysUnder(DocumentOf(uri, d), r) {
      var id := match r
        case Authentication => d.authenticationKey
        case AssertionMethod => d.assertionKey.value
        case CapabilityDelegation => d.delegationKey.value;
      assert Lists(d, r, id);
    }
  }

  lemma GetKeysUnion(doc: Document, k: MaybeKey)
    ensures k in GetKeys(doc) <==> exists r :: k in KeysUnder(doc, r)
  {
    if k in GetKeys(doc) {
      assert k in KeysUnder(doc, Authentication) || k in KeysUnder(doc, AssertionMethod) ||
             k in KeysUnder(doc, CapabilityDelegation) || k in KeysUnder(doc, KeyAgreement);
    }
  }

  lemma DocumentPresent(uri: string, d: ChainDetails)
    requires Closed(d)
    ensures AllPresent(GetKeys(DocumentOf(uri, d)))
    ensures forall r :: AllPresent(KeysUnder(DocumentOf(uri, d), r))
  {
    var doc := DocumentOf(uri, d);
    forall r, k | k in KeysUnder(doc, r) ensures k.Some? {
      KeysUnderAre(uri, d, r, k);
    }
    forall k | k in GetKeys(doc) ensures k.Some? {
      GetKeysUnion(doc, k);
    }
  }

  /** A scan for an id finds it exactly when it is listed, and then finds the stored key. */
  lemma ScanUnder(uri: string, d: ChainDetails, r: Relation, id: string)
    requires Closed(d)
    ensures FindKey(KeysUnder(DocumentOf(uri, d), r), "#" + id).Hit? <==> Lists(d, r, id)
    ensures !FindKey(KeysUnder(DocumentOf(uri, d), r), "#" + id).Broken?
  {
    var ks, keys := KeysUnder(DocumentOf(uri, d), r), KeyRecord(d.publicKeys);
    DocumentPresent(uri, d);
    FindKeyIs(ks, "#" + id);
    if FindKey(ks, "#" + id).Hit? {
      var k := Some(FindKey(ks, "#" + id).key);
      KeysUnderAre(uri, d, r, k);
      var id' :| Lists(d, r, id') && id' in keys && k == Some(keys[id']);
      RecordId(d.publicKeys, id');
      DropSame("#", id, id');
    }
    if Lists(d, r, id) {
      KeyRecordIs(d.publicKeys, id);
      KeysUnderAre(uri, d, r, Some(keys[id]));
      RecordId(d.publicKeys, id);
    }
  }

  lemma {:induction false} RecordId(publicKeys: seq<(string, KeyDetails)>, id: string)
    requires id in KeyRecord(publicKeys)
    ensures KeyRecord(publicKeys)[id].id == "#" + id
  {
    var n := |publicKeys|;
    if publicKeys[n - 1].0 != id {
      RecordId(publicKeys[..n - 1], id);
    }
  }

  lemma ScanAll(uri: string, d: ChainDetails, id: string)
    requires Closed(d)
    ensures var s := GetKey(DocumentOf(uri, d), "#" + id);
      && !s.Broken? && (s.Hit? <==> exists r :: Lists(d, r, id))
      && (s.Hit? ==> id in KeyRecord(d.publicKeys) && s.key == KeyRecord(d.publicKeys)[id])
  {
    var doc := DocumentOf(uri, d);
    DocumentPresent(uri, d);
    FindKeyIs(GetKeys(doc), "#" + id);
    if GetKey(doc, "#" + id).Hit? {
      var k := Some(GetKey(doc, "#" + id).key);
      GetKeysUnion(doc, k);
      var r :| k in KeysUnder(doc, r);
      KeysUnderAre(uri, d, r, k);
      var id' :| Lists(d, r, id') && id' in KeyRecord(d.publicKeys) && k == Some(KeyRecord(d.publicKeys)[id']);
      RecordId(d.publicKeys, id');
      DropSame("#", id, id');
    }
    if r :| Lists(d, r, id) {
      KeyRecordIs(d.publicKeys, id);
      var k := Some(KeyRecord(d.publicKeys)[id]);
      KeysUnderAre(uri, d, r, k);
      GetKeysUnion(doc, k);
      RecordId(d.publicKeys, id);
    }
  }

  /** Under one relation or under any, as `resolveKey` was asked. */
  ghost predicate ListedFor(d: ChainDetails, expected: Option<Relation>, id: string) {
    if expected.Some? then Lists(d, expected.value, id) else exists r :: Lists(d, r, id)
  }

  /** Resolving `did#id`, as asked. */
  function Resolve(chain: Chain, address: string, id: string, expected: Option<Relation>): Outcome<ResolvedKey, Error> {
    ResolveKey(chain, DID_PREFIX + address + ("#" + id), expected)
  }

  /**
   * Resolution of `did#id` succeeds exactly when the chain lists the id as asked, and returns the stored
   * type and bytes, controlled by the DID.
   */
  lemma ResolutionAgreesWithChain(chain: Chain, address: string, id: string, expected: Option<Relation>)
    requires IsAddress(address) && IsFragment("#" + id) && address in chain
    requires Closed(chain[address])
    ensures var r := Resolve(chain, address, id, expected);
      && (r.Ok? <==> ListedFor(chain[address], expected, id))
      && (r.Ok? && DistinctIds(chain[address].publicKeys) ==>
        exists k :: k in chain[address].publicKeys && k.0 == id && r.value == Resolved(DID_PREFIX + address, k))
  {
    var d, did := chain[address], DID_PREFIX + address;
    ParseOf(address, "#" + id);
    ScanAll(did, d, id);
    if expected.Some? {
      ScanUnder(did, d, expected.value, id);
    }
    if ListedFor(d, expected, id) && DistinctIds(d.publicKeys) {
      KeyRecordIs(d.publicKeys, id);
      var i :| 0 <= i < |d.publicKeys| && d.publicKeys[i].0 == id;
      assert d.publicKeys[i] in d.publicKeys;
      assert Resolve(chain, address, id, expected).value == Resolved(did, d.publicKeys[i]);
    }
  }

  /** The stored entry as a key of the DID. */
  function Resolved(did: string, entry: (string, KeyDetails)): ResolvedKey {
    ResolvedKey(did, did + ("#" + entry.0), entry.1.value, entry.1.keyType, None)
  }

  /** An authentication key without an entry makes every resolution throw, whichever key is asked for. */
  lemma DanglingAuthenticationBreaks(chain: Chain, address: string, fragment: string, expected: Option<Relation>)
    requires IsAddress(address) && IsFragment(fragment) && address in chain
    requires forall k :: k in chain[address].publicKeys ==> k.0 != chain[address].authenticationKey
    ensures ResolveKey(chain, DID_PREFIX + address + fragment, expected) == Thrown(TypeError)
  {
    var d := chain[address];
    ParseOf(address, fragment);
    KeyRecordIs(d.publicKeys, d.authenticationKey);
    assert GetKeys(DocumentOf(DID_PREFIX + address, d))[0] == None;
  }

  /** How resolution fails: a bad URI, no fragment, no record, no such key, or a key under other relations only. */
  lemma ResolutionFails(chain: Chain, keyUri: string, expected: Option<Relation>)
    ensures Parse(keyUri).None? ==> ResolveKey(chain, keyUri, expected) == Thrown(InvalidDidFormat)
    ensures Parse(keyUri).Some? && Parse(keyUri).value.fragment.None? ==>
      ResolveKey(chain, keyUri, expected) == Thrown(NotAResource)
    ensures Parse(keyUri).Some? && Parse(keyUri).value.fragment.Some? && Parse(keyUri).value.address !in chain ==>
      ResolveKey(chain, keyUri, expected) == Thrown(Deactivated)
  {
  }

  lemma KeyNotResolved(chain: Chain, address: string, id: string, expected: Option<Relation>)
    requires IsAddress(address) && IsFragment("#" + id) && address in chain && Closed(chain[address])
    requires !ListedFor(chain[address], expected, id)
    ensures Resolve(chain, address, id, expected) ==
      Thrown(if exists r :: Lists(chain[address], r, id) then NotUnderRelation else KeyNotFound)
  {
    var d, did := chain[address], DID_PREFIX + address;
    ParseOf(address, "#" + id);
    ScanAll(did, d, id);
    if expected.Some? {
      ScanUnder(did, d, expected.value, id);
    }
  }

  // ---------- exactly when resolution agrees with the chain ----------

  ghost predicate AgreesWithChain(chain: Chain, address: string)
    requires address in chain
  {
    forall id, expected :: IsFragment("#" + id) ==>
      (Resolve(chain, address, id, expected).Ok? <==> ListedFor(chain[address], expected, id))
  }

  ghost predicate LegalIds(d: ChainDetails) {
    forall r, id :: Lists(d, r, id) ==> IsFragment("#" + id)
  }

  lemma {:induction false} HitIsMember(keys: seq<MaybeKey>, id: string)
    requires FindKey(keys, id).Hit?
    ensures Some(FindKey(keys, id).key) in keys && FindKey(keys, id).key.id == id
  {
    if keys[0].value.id != id {
      HitIsMember(keys[1..], id);
    }
  }

  lemma LookedUp(keys: map<string, DidKey>, ids: seq<string>, k: DidKey)
    requires Some(k) in LookupAll(keys, ids)
    ensures exists id :: id in keys && keys[id] == k
  {
    var i :| 0 <= i < |ids| && LookupAll(keys, ids)[i] == Some(k);
    assert ids[i] in keys;
  }

  /** A key that the document holds is one of the record, under its own id. */
  lemma DocumentKeyIsRecorded(uri: string, d: ChainDetails, k: DidKey, id: string)
    requires Some(k) in GetKeys(DocumentOf(uri, d)) && k.id == "#" + id
    ensures id in KeyRecord(d.publicKeys)
  {
    var doc, keys := DocumentOf(uri, d), KeyRecord(d.publicKeys);
    GetKeysUnion(doc, Some(k));
    var r :| Some(k) in KeysUnder(doc, r);
    if r == KeyAgreement {
      LookedUp(keys, d.keyAgreementKeys, k);
    }
    var id' :| id' in keys && keys[id'] == k;
    RecordId(d.publicKeys, id');
    DropSame("#", id, id');
  }

  /** Resolution agrees with the chain for every id, however asked, exactly when every listed id has an entry. */
  lemma AgreesExactly(chain: Chain, address: string)
    requires IsAddress(address) && address in chain && LegalIds(chain[address])
    ensures AgreesWithChain(chain, address) <==> Closed(chain[address])
  {
    var d, did := chain[address], DID_PREFIX + address;
    if Closed(d) {
      forall id, expected | IsFragment("#" + id)
        ensures Resolve(chain, address, id, expected).Ok? <==> ListedFor(d, expected, id)
      {
        ResolutionAgreesWithChain(chain, address, id, expected);
      }
    }
    if AgreesWithChain(chain, address) {
      forall r, id | Lists(d, r, id) ensures exists i :: 0 <= i < |d.publicKeys| && d.publicKeys[i].0 == id {
        assert ListedFor(d, None, id);
        assert Resolve(chain, address, id, None).Ok?;
        ParseOf(address, "#" + id);
        HitIsMember(GetKeys(DocumentOf(did, d)), "#" + id);
        DocumentKeyIsRecorded(did, d, GetKey(DocumentOf(did, d), "#" + id).key, id);
        KeyRecordIs(d.publicKeys, id);
      }
    }
  }
}
