/** Identifiers as URIs: a fixed prefix in front, and its removal. */
module IdentifierUri {
  import opened Identifier
  import opened Wrappers

  const SCHEMA_PREFIX := "schema:cord:"
  const REGISTRY_PREFIX := "registry:cord:"
  const STREAM_PREFIX := "stream:cord:"
  const SCORE_PREFIX := "score:cord:"
  const ACCOUNT_IDENTIFIER_PREFIX := "id:cord:"
  const AUTHORIZATION_PREFIX := "auth:cord:"

  predicate IsUriPrefix(p: string) {
    || p == SCHEMA_PREFIX || p == REGISTRY_PREFIX || p == STREAM_PREFIX
    || p == SCORE_PREFIX || p == ACCOUNT_IDENTIFIER_PREFIX || p == AUTHORIZATION_PREFIX
  }

  /** `s.split(sep).join('')`: every occurrence of `sep` goes, from left to right. */
  function RemoveAll(s: string, sep: string): (r: string)
    requires sep != []
    ensures |r| <= |s|
  {
    if |s| < |sep| then s
    else if sep <= s then RemoveAll(s[|sep|..], sep)
    else [s[0]] + RemoveAll(s[1..], sep)
  }

  ghost predicate Occurs(sep: string, s: string) {
    exists i :: 0 <= i <= |s| && sep <= s[i..]
  }

  /** Removal leaves a text alone exactly when there is nothing to remove. */
  lemma {:induction false} RemoveAllFixed(s: string, sep: string)
    requires sep != []
    ensures RemoveAll(s, sep) == s <==> !Occurs(sep, s)
  {
    if |s| >= |sep| {
      assert s[0..] == s;
      if !(sep <= s) {
        RemoveAllFixed(s[1..], sep);
        if i :| 0 <= i <= |s[1..]| && sep <= s[1..][i..] {
          assert s[1..][i..] == s[i + 1..];
        }
        if i :| 0 <= i <= |s| && sep <= s[i..] && i > 0 {
          assert s[1..][i - 1..] == s[i..];
        }
        assert s == [s[0]] + s[1..];
      }
    }
  }

  /** `hashToUri`; none where an assertion throws. */
  function HashToUri(h: Hash512, lib: Library, key: Bytes, p: bv16, prefix: string): Option<string> {
    match EncodeIdentifier(h, SDK_TAG, lib, key, p)
    case None => None
    case Some(id) => Some(prefix + id)
  }

  /** `uriToIdentifier`; none where it throws. */
  function UriToIdentifier(s: string): Option<string> {
    if s == "" then None
    else if SCHEMA_PREFIX <= s then Some(RemoveAll(s, SCHEMA_PREFIX))
    else if REGISTRY_PREFIX <= s then Some(RemoveAll(s, REGISTRY_PREFIX))
    else if STREAM_PREFIX <= s then Some(RemoveAll(s, STREAM_PREFIX))
    else if SCORE_PREFIX <= s then Some(RemoveAll(s, SCORE_PREFIX))
    else if ACCOUNT_IDENTIFIER_PREFIX <= s then Some(RemoveAll(s, ACCOUNT_IDENTIFIER_PREFIX))
    else if AUTHORIZATION_PREFIX <= s then Some(RemoveAll(s, AUTHORIZATION_PREFIX))
    else None
  }

  /** Three characters tell the prefixes apart. */
  lemma PrefixRecognised(p: string, q: string, rest: string)
    requires IsUriPrefix(p) && IsUriPrefix(q)
    ensures q <= p + rest <==> q == p
  {
    var s := p + rest;
    assert s[0] == p[0] && s[1] == p[1] && s[2] == p[2];
    if q <= s {
      assert s[0] == q[0] && s[1] == q[1] && s[2] == q[2];
    }
  }

  lemma UriToIdentifierOf(p: string, rest: string)
    requires IsUriPrefix(p)
    ensures UriToIdentifier(p + rest) == Some(RemoveAll(rest, p))
  {
    PrefixRecognised(p, SCHEMA_PREFIX, rest);
    PrefixRecognised(p, REGISTRY_PREFIX, rest);
    PrefixRecognised(p, STREAM_PREFIX, rest);
    PrefixRecognised(p, SCORE_PREFIX, rest);
    PrefixRecognised(p, ACCOUNT_IDENTIFIER_PREFIX, rest);
    PrefixRecognised(p, AUTHORIZATION_PREFIX, rest);
    assert (p + rest)[|p|..] == rest;
  }

  /** Stripping gives back what was behind the prefix exactly when the prefix does not occur there again. */
  lemma StripExactly(p: string, rest: string)
    requires IsUriPrefix(p)
    ensures UriToIdentifier(p + rest) == Some(rest) <==> !Occurs(p, rest)
  {
    UriToIdentifierOf(p, rest);
    RemoveAllFixed(rest, p);
  }

  lemma OccurrenceHasColon(p: string, s: string)
    requires IsUriPrefix(p) && Occurs(p, s)
    ensures ':' in s
  {
    var i :| 0 <= i <= |s| && p <= s[i..];
    assert p[|p| - 1] == ':';
    assert s[i..][|p| - 1] == ':';
    assert s[i + |p| - 1] in s;
  }

  /** Stripping the URI of an identifier gives the identifier. */
  lemma UriRoundTrip(h: Hash512, lib: Library, key: Bytes, p: bv16, prefix: string)
    requires IsBase58(lib) && IsUriPrefix(prefix)
    requires HashToUri(h, lib, key, p, prefix).Some?
    ensures UriToIdentifier(HashToUri(h, lib, key, p, prefix).value) == EncodeIdentifier(h, SDK_TAG, lib, key, p)
  {
    var id := EncodeIdentifier(h, SDK_TAG, lib, key, p).value;
    if Occurs(prefix, id) { OccurrenceHasColon(prefix, id); }
    StripExactly(prefix, id);
  }

  /** What is stripped of which prefix, when no prefix follows another. */
  lemma PrefixesStripped(id: string)
    requires ':' !in id
    ensures UriToIdentifier("schema:cord:" + id) == Some(id) && UriToIdentifier("registry:cord:" + id) == Some(id)
    ensures UriToIdentifier("stream:cord:" + id) == Some(id) && UriToIdentifier("score:cord:" + id) == Some(id)
    ensures UriToIdentifier("id:cord:" + id) == Some(id) && UriToIdentifier("auth:cord:" + id) == Some(id)
  {
    PrefixStripped(SCHEMA_PREFIX, id);
    PrefixStripped(REGISTRY_PREFIX, id);
    PrefixStripped(STREAM_PREFIX, id);
    PrefixStripped(SCORE_PREFIX, id);
    PrefixStripped(ACCOUNT_IDENTIFIER_PREFIX, id);
    PrefixStripped(AUTHORIZATION_PREFIX, id);
  }

  lemma PrefixStripped(p: string, id: string)
    requires IsUriPrefix(p) && ':' !in id
    ensures UriToIdentifier(p + id) == Some(id)
  {
    if Occurs(p, id) { OccurrenceHasColon(p, id); }
    StripExactly(p, id);
  }

  /** Any other text is refused. */
  lemma UnknownPrefixThrows(s: string)
    ensures UriToIdentifier(s).None? <==>
      && !("schema:cord:" <= s) && !("registry:cord:" <= s) && !("stream:cord:" <= s)
      && !("score:cord:" <= s) && !("id:cord:" <= s) && !("auth:cord:" <= s)
  {
  }

  // ---------- accounts ----------

  function AccountIdentifierFromAddress(address: string): string {
    if ACCOUNT_IDENTIFIER_PREFIX <= address then address else ACCOUNT_IDENTIFIER_PREFIX + address
  }

  function AccountAddressFromIdentifier(id: string): string {
    RemoveAll(id, ACCOUNT_IDENTIFIER_PREFIX)
  }

  /** Every account identifier has the prefix, and an account identifier is its own. */
  lemma AccountIdentifierOnce(address: string)
    ensures "id:cord:" <= AccountIdentifierFromAddress(address)
    ensures "id:cord:" <= address <==> AccountIdentifierFromAddress(address) == address
    ensures AccountIdentifierFromAddress(AccountIdentifierFromAddress(address)) == AccountIdentifierFromAddress(address)
    ensures AccountIdentifierFromAddress(address)[|AccountIdentifierFromAddress(address)| - |address|..] == address
  {
    var p := ACCOUNT_IDENTIFIER_PREFIX;
    assert p <= p + address && |p + address| != |address| && (p + address)[|p|..] == address;
  }

  /** The address comes back from its identifier exactly when it does not itself hold the prefix. */
  lemma AccountRoundTrip(address: string)
    ensures AccountAddressFromIdentifier(AccountIdentifierFromAddress(address)) == address <==>
      !Occurs(ACCOUNT_IDENTIFIER_PREFIX, address)
  {
    var p := ACCOUNT_IDENTIFIER_PREFIX;
    RemoveAllFixed(address, p);
    if !(p <= address) {
      assert p <= p + address && (p + address)[|p|..] == address;
    }
  }
}
