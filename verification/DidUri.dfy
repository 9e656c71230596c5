/** DID URIs and the keys they name. */
module DidUri {
  import opened Wrappers

  const DID_PREFIX := "did:cord:"

  predicate InAddressAlphabet(c: char) {
    || ('1' <= c <= '9') || ('a' <= c <= 'k') || ('m' <= c <= 'z')
    || ('A' <= c <= 'H') || ('J' <= c <= 'N') || ('P' <= c <= 'Z')
  }

  /** `3[1-9a-km-zA-HJ-NP-Z]{47}` */
  predicate IsAddress(s: string) {
    |s| == 48 && s[0] == '3' && forall i :: 1 <= i < 48 ==> InAddressAlphabet(s[i])
  }

  /** `#[^#\n]+` */
  predicate IsFragment(s: string) {
    |s| > 1 && s[0] == '#' && forall i :: 1 <= i < |s| ==> s[i] != '#' && s[i] != '\n'
  }

  datatype Parsed = Parsed(did: string, address: string, fragment: Option<string>)

  /** `s.replace(pattern, '')`: the first occurrence goes. */
  function ReplaceFirst(s: string, pattern: string): string {
    if pattern <= s then s[|pattern|..]
    else if s == "" then s
    else [s[0]] + ReplaceFirst(s[1..], pattern)
  }

  /** `parse`; none where it throws. */
  function Parse(uri: string): Option<Parsed> {
    if |uri| < 57 || !(DID_PREFIX <= uri) || !IsAddress(uri[9..57]) then None
    else if |uri| == 57 then Some(Parsed(ReplaceFirst(uri, ""), uri[9..57], None))
    else if IsFragment(uri[57..]) then Some(Parsed(ReplaceFirst(uri, uri[57..]), uri[9..57], Some(uri[57..])))
    else None
  }

  lemma {:induction false} ReplaceTail(front: string, tail: string)
    requires tail != "" && tail[0] !in front
    ensures ReplaceFirst(front + tail, tail) == front
  {
    if front == "" {
      assert front + tail == tail;
    } else {
      assert (front + tail)[0] == front[0];
      assert front[0] in front;
      assert (front + tail)[1..] == front[1..] + tail;
      ReplaceTail(front[1..], tail);
    }
  }

  lemma NoHash(address: string)
    requires IsAddress(address)
    ensures '#' !in DID_PREFIX + address
  {
    assert forall i :: 0 <= i < |DID_PREFIX| ==> DID_PREFIX[i] != '#';
    assert forall i :: 1 <= i < 48 ==> InAddressAlphabet(address[i]);
  }

  lemma ParseOf(address: string, fragment: string)
    requires IsAddress(address) && (fragment == "" || IsFragment(fragment))
    ensures Parse(DID_PREFIX + address + fragment) ==
      Some(Parsed(DID_PREFIX + address, address, if fragment == "" then None else Some(fragment)))
  {
    var did := DID_PREFIX + address;
    var uri := did + fragment;
    assert uri[9..57] == address && uri[57..] == fragment;
    if fragment == "" {
      assert uri == did;
    } else {
      NoHash(address);
      ReplaceTail(did, fragment);
    }
  }

  /** Whatever is accepted is a DID followed by its fragment, and parsing the DID alone gives the same DID back. */
  lemma ParsePrint(uri: string)
    requires Parse(uri).Some?
    ensures var p := Parse(uri).value;
      && uri == p.did + (if p.fragment.Some? then p.fragment.value else "")
      && p.did == DID_PREFIX + p.address
      && IsAddress(p.address) && (p.fragment.Some? ==> IsFragment(p.fragment.value))
      && Parse(p.did) == Some(p.(fragment := None))
  {
    var a, f := uri[9..57], uri[57..];
    assert uri == DID_PREFIX + a + f by {
      assert uri[..9] == DID_PREFIX;
    }
    ParseOf(a, f);
    ParseOf(a, "");
    assert DID_PREFIX + a + "" == DID_PREFIX + a;
  }

  /** A letter or digit, but none of the four that are easily mistaken. */
  predicate IsBase58(c: char) {
    ('0' <= c <= '9' || 'A' <= c <= 'Z' || 'a' <= c <= 'z') && c != '0' && c != 'O' && c != 'I' && c != 'l'
  }

  lemma AddressAlphabet(c: char)
    ensures InAddressAlphabet(c) <==> IsBase58(c)
  {
  }

  /** An address, and a fragment behind it or nothing. */
  ghost predicate IsDid(uri: string, address: string, fragment: string) {
    && uri == "did:cord:" + address + fragment
    && |address| == 48 && address[0] == '3' && (forall i :: 1 <= i < 48 ==> IsBase58(address[i]))
    && (fragment == "" || (|fragment| > 1 && fragment[0] == '#' && '#' !in fragment[1..] && '\n' !in fragment[1..]))
  }

  lemma FragmentIs(fragment: string)
    requires fragment != ""
    ensures IsFragment(fragment) <==>
      |fragment| > 1 && fragment[0] == '#' && '#' !in fragment[1..] && '\n' !in fragment[1..]
  {
    var t := fragment[1..];
    assert forall i :: 1 <= i < |fragment| ==> fragment[i] == t[i - 1];
    if '#' !in t && '\n' !in t {
      assert forall i :: 1 <= i < |fragment| ==> fragment[i] in t;
    }
    if IsFragment(fragment) {
      assert forall j :: 0 <= j < |t| ==> t[j] == fragment[j + 1];
    }
  }

  lemma AddressIs(address: string)
    ensures IsAddress(address) <==>
      |address| == 48 && address[0] == '3' && forall i :: 1 <= i < 48 ==> IsBase58(address[i])
  {
    if |address| == 48 {
      forall i | 1 <= i < 48 ensures InAddressAlphabet(address[i]) <==> IsBase58(address[i]) {
        AddressAlphabet(address[i]);
      }
    }
  }

  /** The accepted texts are exactly the DIDs with an address of this form, with or without a fragment. */
  lemma ParseExactly(uri: string)
    ensures Parse(uri).Some? <==> exists address, fragment :: IsDid(uri, address, fragment)
  {
    if Parse(uri).Some? {
      ParsePrint(uri);
      var p := Parse(uri).value;
      var fragment := if p.fragment.Some? then p.fragment.value else "";
      AddressIs(p.address);
      if fragment != "" { FragmentIs(fragment); }
      assert IsDid(uri, p.address, fragment);
    }
    if address, fragment :| IsDid(uri, address, fragment) {
      AddressIs(address);
      if fragment != "" { FragmentIs(fragment); }
      ParseOf(address, fragment);
    }
  }

  /** `isSameSubject`; none if either URI does not parse. */
  function IsSameSubject(a: string, b: string): Option<bool> {
    if Parse(a).None? || Parse(b).None? then None else Some(Parse(a).value.address == Parse(b).value.address)
  }

  /** Two URIs have one subject exactly when they have one DID in front. */
  lemma SameSubjectSameDid(a: string, b: string)
    requires Parse(a).Some? && Parse(b).Some?
    ensures IsSameSubject(a, b) == Some(Parse(a).value.did == Parse(b).value.did)
  {
    ParsePrint(a);
    ParsePrint(b);
    var p, q := Parse(a).value, Parse(b).value;
    assert p.did[9..] == p.address && q.did[9..] == q.address;
  }

  // ---------- keys ----------

  datatype KeyType = Sr25519 | Ed25519 | Ecdsa | X25519

  datatype DidKey = DidKey(id: string, publicKey: Bytes, keyType: KeyType, includedAt: Option<nat>)

  datatype ResolvedKey = ResolvedKey(controller: string, id: string, publicKey: Bytes, keyType: KeyType,
                                     includedAt: Option<nat>)

  function KeyToResolvedKey(key: DidKey, did: string): ResolvedKey {
    ResolvedKey(did, did + key.id, key.publicKey, key.keyType, key.includedAt)
  }

  /** A key whose id may be missing, because the URI it came from had no fragment. */
  datatype KeyBack = KeyBack(id: Option<string>, publicKey: Bytes, keyType: KeyType, includedAt: Option<nat>)

  /** `resolvedKeyToKey`; none where parsing the id throws. */
  function ResolvedKeyToKey(key: ResolvedKey): Option<KeyBack> {
    match Parse(key.id)
    case None => None
    case Some(p) => Some(KeyBack(p.fragment, key.publicKey, key.keyType, key.includedAt))
  }

  /** A key comes back from its resolved form exactly when its id is a legal fragment. */
  lemma KeyRoundTrip(key: DidKey, address: string)
    requires IsAddress(address)
    ensures var back := Some(KeyBack(Some(key.id), key.publicKey, key.keyType, key.includedAt));
      ResolvedKeyToKey(KeyToResolvedKey(key, DID_PREFIX + address)) == back <==> IsFragment(key.id)
  {
    var did := DID_PREFIX + address;
    var uri := did + key.id;
    if IsFragment(key.id) {
      ParseOf(address, key.id);
    } else if Parse(uri).Some? {
      assert uri[57..] == key.id;
    }
  }
}
