/** Identifiers: a packed prefix, a payload and a checksum, in base58, with or without a URI prefix. */
module Identifier {
  import opened Wrappers

  type Digest64 = b: Bytes | |b| == 64 witness seq(64, _ => 0)

  /** blake2b with a 512-bit result; nothing is assumed of it but the width of its output. */
  type Hash512 = Bytes -> Digest64

  /** The library: base58 both ways, and hexadecimal text to bytes. */
  datatype Library = Library(encode: Bytes -> string, decode: string -> Option<Bytes>,
                             isHex: string -> bool, fromHex: string -> Bytes)

  /** Base58 is a bijection onto the texts it accepts, and `0` and `:` are not in its alphabet. */
  ghost predicate IsBase58(lib: Library) {
    && (forall b :: lib.decode(lib.encode(b)) == Some(b))
    && (forall s :: lib.decode(s).Some? ==> lib.encode(lib.decode(s).value) == s)
    && (forall b :: ':' !in lib.encode(b) && '0' !in lib.encode(b))
    && lib.encode([]) == ""
    && (forall s :: lib.isHex(s) ==> |s| >= 2 && s[0] == '0')
  }

  /** `CRDIDFR`, hashed before the identifiers of the SDK. */
  const SDK_TAG: Bytes := [0x43, 0x52, 0x44, 0x49, 0x44, 0x46, 0x52]

  /** `CIDPRE`, hashed before the identifiers of the demo. */
  const DEMO_TAG: Bytes := [0x43, 0x49, 0x44, 0x50, 0x52, 0x45]

  predicate AllowedDecodedLength(n: int) {
    n == 1 || n == 2 || n == 4 || n == 8 || n == 32 || n == 33
  }

  predicate AllowedEncodedLength(n: int) {
    n == 3 || n == 4 || n == 6 || n == 10 || n == 35 || n == 36 || n == 37 || n == 38
  }

  predicate AllowedPrefix(p: bv16) {
    p <= 16383 && p != 46 && p != 47
  }

  // ---------- the prefix bytes ----------

  function PackPrefix(p: bv16): (b: Bytes) {
    if p < 64 then [p as bv8]
    else [(((p & 0x00FC) >> 2) | 0x40) as bv8, ((p >> 8) | ((p & 0x0003) << 6)) as bv8]
  }

  /** A missing byte counts as 0 in JavaScript's bit operations. */
  function ByteAt(b: Bytes, i: nat): bv16 {
    if i < |b| then b[i] as bv16 else 0
  }

  function PrefixLength(b: Bytes): nat {
    if ByteAt(b, 0) & 0x40 != 0 then 2 else 1
  }

  function UnpackPrefix(b: Bytes): bv16 {
    if PrefixLength(b) == 1 then ByteAt(b, 0)
    else ((ByteAt(b, 0) & 0x3F) << 2) | (ByteAt(b, 1) >> 6) | ((ByteAt(b, 1) & 0x3F) << 8)
  }

  /** Packing fits two bytes and is undone by unpacking, with anything behind it. */
  lemma PackUnpack(p: bv16, rest: Bytes)
    requires p <= 16383
    ensures var b := PackPrefix(p) + rest;
      && PrefixLength(b) == |PackPrefix(p)| == (if p < 64 then 1 else 2)
      && UnpackPrefix(b) == p
      && b[0] & 0x80 == 0
      && (b[0] == 46 || b[0] == 47 ==> p == 46 || p == 47)
  {
  }

  // ---------- encoding ----------

  /** The keyed hash under one of the two tags. */
  function PpHash(h: Hash512, tag: Bytes, key: Bytes): Digest64 {
    h(tag + key)
  }

  function ChecksumLength(payload: int): nat {
    if payload == 32 || payload == 33 then 2 else 1
  }

  /** Prefix, payload and checksum. */
  function EncodedBytes(h: Hash512, tag: Bytes, key: Bytes, p: bv16): Bytes {
    var input := PackPrefix(p) + key;
    input + PpHash(h, tag, input)[..ChecksumLength(|key|)]
  }

  /** `encodeIdentifier`; none where an assertion throws. */
  function EncodeIdentifier(h: Hash512, tag: Bytes, lib: Library, key: Bytes, p: bv16): Option<string> {
    if AllowedPrefix(p) && AllowedDecodedLength(|key|) then Some(lib.encode(EncodedBytes(h, tag, key, p))) else None
  }

  // ---------- checking and decoding ----------

  datatype Check = Check(isValid: bool, length: int, prefixLength: nat, prefix: bv16)

  predicate IsContentHash(b: Bytes) {
    |b| == 34 + PrefixLength(b) || |b| == 35 + PrefixLength(b)
  }

  function CheckAddressChecksum(h: Hash512, tag: Bytes, b: Bytes): Check {
    var n := |b|;
    var length := n - (if IsContentHash(b) then 2 else 1);
    var hash := PpHash(h, tag, if length > 0 then b[..length] else []);
    var isValid :=
      && ByteAt(b, 0) & 0x80 == 0 && ByteAt(b, 0) != 46 && ByteAt(b, 0) != 47
      && n > 0 && if IsContentHash(b) then b[n - 2] == hash[0] && b[n - 1] == hash[1] else b[n - 1] == hash[0];
    Check(isValid, length, PrefixLength(b), UnpackPrefix(b))
  }

  /** `decodeIdentifier` of a string; none where it throws. Without a format any prefix will do. */
  function DecodeIdentifier(h: Hash512, tag: Bytes, lib: Library, encoded: string, ignoreChecksum: bool,
                            format: Option<bv16>): Option<Bytes> {
    if encoded == "" then None
    else if lib.isHex(encoded) then Some(lib.fromHex(encoded))
    else if lib.decode(encoded).None? then None
    else
      var b := lib.decode(encoded).value;
      if !AllowedEncodedLength(|b|) then None
      else
        var c := CheckAddressChecksum(h, tag, b);
        if (ignoreChecksum || c.isValid) && (format == None || format == Some(c.prefix)) then
          Some(b[c.prefixLength..c.length])
        else None
  }

  /** Which payload lengths come back under a prefix: a two-byte prefix leaves room for three of the six. */
  predicate Decodable(p: bv16, length: int) {
    p < 64 || length == 1 || length == 32 || length == 33
  }

  /** What is encoded has a valid checksum and shows its prefix. */
  lemma EncodedChecks(h: Hash512, tag: Bytes, key: Bytes, p: bv16)
    requires AllowedPrefix(p) && AllowedDecodedLength(|key|)
    ensures var input := PackPrefix(p) + key;
      CheckAddressChecksum(h, tag, EncodedBytes(h, tag, key, p)) == Check(true, |input|, |PackPrefix(p)|, p)
    ensures EncodedBytes(h, tag, key, p)[|PackPrefix(p)|..|PackPrefix(p)| + |key|] == key
  {
    var input := PackPrefix(p) + key;
    var sum := PpHash(h, tag, input)[..ChecksumLength(|key|)];
    var b := EncodedBytes(h, tag, key, p);
    assert b == PackPrefix(p) + (key + sum);
    PackUnpack(p, key + sum);
    assert IsContentHash(b) <==> ChecksumLength(|key|) == 2;
    assert b[..|input|] == input;
  }

  lemma EncodingIsText(lib: Library, b: Bytes)
    requires IsBase58(lib) && b != []
    ensures lib.encode(b) != "" && !lib.isHex(lib.encode(b))
  {
    assert lib.decode(lib.encode(b)) == Some(b) && lib.decode(lib.encode([])) == Some([]);
    assert '0' !in lib.encode(b);
  }

  /** Decoding gives the payload back exactly when the length fits the prefix; otherwise it throws. */
  lemma RoundTrip(h: Hash512, tag: Bytes, lib: Library, key: Bytes, p: bv16)
    requires IsBase58(lib) && AllowedPrefix(p) && AllowedDecodedLength(|key|)
    ensures var s := EncodeIdentifier(h, tag, lib, key, p).value;
      DecodeIdentifier(h, tag, lib, s, false, Some(p)) == if Decodable(p, |key|) then Some(key) else None
  {
    var b := EncodedBytes(h, tag, key, p);
    EncodingIsText(lib, b);
    EncodedChecks(h, tag, key, p);
    assert lib.decode(lib.encode(b)) == Some(b);
    assert |b| == |PackPrefix(p)| + |key| + ChecksumLength(|key|);
  }

  /** No two pairs of prefix and payload share an identifier. */
  lemma EncodeInjective(h: Hash512, tag: Bytes, lib: Library, key: Bytes, p: bv16, key': Bytes, p': bv16)
    requires IsBase58(lib)
    requires EncodeIdentifier(h, tag, lib, key, p).Some?
    requires EncodeIdentifier(h, tag, lib, key, p) == EncodeIdentifier(h, tag, lib, key', p')
    ensures key == key' && p == p'
  {
    var b, b' := EncodedBytes(h, tag, key, p), EncodedBytes(h, tag, key', p');
    assert lib.decode(lib.encode(b)) == Some(b) && lib.decode(lib.encode(b')) == Some(b');
    EncodedChecks(h, tag, key, p);
    EncodedChecks(h, tag, key', p');
  }

  predicate SameChecksum(h: Hash512, tag: Bytes, tag': Bytes, key: Bytes, p: bv16) {
    var n, input := ChecksumLength(|key|), PackPrefix(p) + key;
    PpHash(h, tag, input)[..n] == PpHash(h, tag', input)[..n]
  }

  /** Under another tag the check differs in its verdict only. */
  lemma ForeignCheck(h: Hash512, tag: Bytes, tag': Bytes, key: Bytes, p: bv16)
    requires AllowedPrefix(p) && AllowedDecodedLength(|key|)
    ensures CheckAddressChecksum(h, tag', EncodedBytes(h, tag, key, p)) ==
      Check(SameChecksum(h, tag, tag', key, p), |PackPrefix(p) + key|, |PackPrefix(p)|, p)
  {
    var n, input := ChecksumLength(|key|), PackPrefix(p) + key;
    var b := EncodedBytes(h, tag, key, p);
    var sum, sum' := PpHash(h, tag, input), PpHash(h, tag', input);
    EncodedChecks(h, tag, key, p);
    assert b[..|input|] == input && b == input + sum[..n];
    assert sum[..n] == sum'[..n] <==> sum[0] == sum'[0] && (n == 2 ==> sum[1] == sum'[1]);
  }

  /** Reading under another tag: only if the checksums happen to agree does the payload come back. */
  lemma AcrossTags(h: Hash512, tag: Bytes, tag': Bytes, lib: Library, key: Bytes, p: bv16)
    requires IsBase58(lib) && AllowedPrefix(p) && AllowedDecodedLength(|key|)
    ensures var s := EncodeIdentifier(h, tag, lib, key, p).value;
      DecodeIdentifier(h, tag', lib, s, false, Some(p)) ==
        if Decodable(p, |key|) && SameChecksum(h, tag, tag', key, p) then Some(key) else None
  {
    var b := EncodedBytes(h, tag, key, p);
    EncodingIsText(lib, b);
    EncodedChecks(h, tag, key, p);
    ForeignCheck(h, tag, tag', key, p);
    assert lib.decode(lib.encode(b)) == Some(b);
    assert |b| == |PackPrefix(p)| + |key| + ChecksumLength(|key|);
  }

  /** The two packages hash under different tags, so the demo reads the SDK's identifiers only by such a coincidence. */
  lemma AcrossPackages(h: Hash512, lib: Library, key: Bytes, p: bv16)
    requires IsBase58(lib) && AllowedPrefix(p) && AllowedDecodedLength(|key|)
    ensures SDK_TAG != DEMO_TAG
    ensures var s := EncodeIdentifier(h, SDK_TAG, lib, key, p).value;
      DecodeIdentifier(h, DEMO_TAG, lib, s, false, Some(p)).Some? <==>
        Decodable(p, |key|) && SameChecksum(h, SDK_TAG, DEMO_TAG, key, p)
  {
    assert |SDK_TAG| != |DEMO_TAG|;
    AcrossTags(h, SDK_TAG, DEMO_TAG, lib, key, p);
  }

  lemma UnpackPack(b: Bytes)
    requires |b| >= 2 && b[0] & 0x80 == 0
    ensures var p := UnpackPrefix(b);
      p <= 16383 && (PackPrefix(p) == b[..PrefixLength(b)] <==> PrefixLength(b) == 1 || p >= 64)
  {
  }

  lemma EncodedIsMinimal(h: Hash512, tag: Bytes, lib: Library, s: string, key: Bytes, p: bv16)
    requires IsBase58(lib) && EncodeIdentifier(h, tag, lib, key, p) == Some(s)
    ensures IsMinimal(lib, s, key)
  {
    var b := EncodedBytes(h, tag, key, p);
    EncodingIsText(lib, b);
    EncodedChecks(h, tag, key, p);
    assert lib.decode(s) == Some(b);
  }

  /** A valid check and matching widths put prefix, payload and checksum back together. */
  lemma CheckedIsEncoded(h: Hash512, tag: Bytes, b: Bytes, key: Bytes)
    requires |b| >= 3 && CheckAddressChecksum(h, tag, b).isValid
    requires key == b[PrefixLength(b)..CheckAddressChecksum(h, tag, b).length]
    requires PackPrefix(UnpackPrefix(b)) == b[..PrefixLength(b)]
    requires IsContentHash(b) <==> ChecksumLength(|key|) == 2
    ensures EncodedBytes(h, tag, key, UnpackPrefix(b)) == b
  {
    var length, input := CheckAddressChecksum(h, tag, b).length, PackPrefix(UnpackPrefix(b)) + key;
    assert input == b[..length];
    assert PpHash(h, tag, input)[..ChecksumLength(|key|)] == b[length..];
  }

  /** What sets the texts of the encoder apart among those that decode to `key`. */
  predicate IsMinimal(lib: Library, s: string, key: Bytes) {
    !lib.isHex(s) && lib.decode(s).Some? &&
      var b := lib.decode(s).value;
      && (PrefixLength(b) == 1 || UnpackPrefix(b) >= 64)
      && AllowedDecodedLength(|key|)
      && (IsContentHash(b) <==> ChecksumLength(|key|) == 2)
  }

  lemma MinimalIsEncoded(h: Hash512, tag: Bytes, lib: Library, s: string, key: Bytes)
    requires IsBase58(lib) && DecodeIdentifier(h, tag, lib, s, false, None) == Some(key) && IsMinimal(lib, s, key)
    ensures EncodeIdentifier(h, tag, lib, key, UnpackPrefix(lib.decode(s).value)) == Some(s)
  {
    var b := lib.decode(s).value;
    assert CheckAddressChecksum(h, tag, b).isValid;
    UnpackPack(b);
    CheckedIsEncoded(h, tag, b, key);
    assert lib.encode(b) == s;
  }

  /**
   * Decoding accepts more than encoding makes, hexadecimal text among it. The decoded payload encodes to the same text,
   * under whatever prefix, exactly when the text is base58, its prefix was packed in as few bytes as it needs, and the
   * payload has an allowed length with its checksum width.
   */
  lemma DecodeThenEncode(h: Hash512, tag: Bytes, lib: Library, s: string)
    requires IsBase58(lib) && DecodeIdentifier(h, tag, lib, s, false, None).Some?
    ensures var key := DecodeIdentifier(h, tag, lib, s, false, None).value;
      (exists p :: EncodeIdentifier(h, tag, lib, key, p) == Some(s)) <==> IsMinimal(lib, s, key)
  {
    var key := DecodeIdentifier(h, tag, lib, s, false, None).value;
    if p :| EncodeIdentifier(h, tag, lib, key, p) == Some(s) {
      EncodedIsMinimal(h, tag, lib, s, key, p);
    }
    if IsMinimal(lib, s, key) {
      MinimalIsEncoded(h, tag, lib, s, key);
    }
  }

  /** The bytes of a text of ASCII characters. */
  ghost predicate IsAscii(b: Bytes, s: string) {
    |b| == |s| && forall i :: 0 <= i < |b| ==> b[i] as int == s[i] as int
  }

  lemma TagTexts()
    ensures IsAscii(SDK_TAG, "CRDIDFR") && IsAscii(DEMO_TAG, "CIDPRE")
  {
  }

  // ---------- the byte layout ----------

  /** The prefix in one byte, or in two as section 'Address type' of the SS58 specification lays them out. */
  lemma PrefixLayout(p: bv16)
    requires p <= 16383
    ensures PackPrefix(p) ==
      if p < 64 then [p as bv8]
      else [(64 + (p & 0x00FF) / 4) as bv8, ((p / 256) + (p % 4) * 64) as bv8]
  {
  }

  /** The text of prefix, payload, and the first bytes of the hash of tag, prefix and payload. */
  lemma EncodedLayout(h: Hash512, tag: Bytes, lib: Library, key: Bytes, p: bv16)
    ensures EncodeIdentifier(h, tag, lib, key, p).Some? <==>
      p <= 16383 && p != 46 && p != 47 && |key| in {1, 2, 4, 8, 32, 33}
    ensures EncodeIdentifier(h, tag, lib, key, p).Some? ==>
      EncodeIdentifier(h, tag, lib, key, p).value ==
        lib.encode(PackPrefix(p) + key + h(tag + (PackPrefix(p) + key))[..if |key| == 32 || |key| == 33 then 2 else 1])
  {
  }

  /** Prefix bytes, payload and checksum, as a decoder wants them. */
  ghost predicate IsLayout(h: Hash512, tag: Bytes, b: Bytes, key: Bytes) {
    && |b| in {3, 4, 6, 10, 35, 36, 37, 38}
    && b[0] < 128 && b[0] != 46 && b[0] != 47
    && var l := if b[0] < 64 then 1 else 2;
      var n := if |b| == 34 + l || |b| == 35 + l then 2 else 1;
      && key == b[l..|b| - n] && b[|b| - n..] == h(tag + b[..|b| - n])[..n]
  }

  lemma ChecksumIs(b: Bytes, x: Bytes, n: nat)
    requires 1 <= n <= 2 && |b| >= 3 && |x| >= 2
    ensures b[|b| - n..] == x[..n] <==>
      if n == 2 then b[|b| - 2] == x[0] && b[|b| - 1] == x[1] else b[|b| - 1] == x[0]
  {
    var u, v := b[|b| - n..], x[..n];
    assert |u| == n && |v| == n && u[0] == b[|b| - n] && v[0] == x[0];
    assert n == 2 ==> u[1] == b[|b| - 1] && v[1] == x[1];
  }

  /** Base58 text decodes to a payload exactly when its bytes have this layout. */
  lemma DecodesExactly(h: Hash512, tag: Bytes, lib: Library, s: string, key: Bytes)
    requires s != "" && !lib.isHex(s)
    ensures DecodeIdentifier(h, tag, lib, s, false, None) == Some(key) <==>
      lib.decode(s).Some? && IsLayout(h, tag, lib.decode(s).value, key)
  {
    if lib.decode(s).Some? && |lib.decode(s).value| >= 3 {
      var b := lib.decode(s).value;
      var c := CheckAddressChecksum(h, tag, b);
      var n := |b| - c.length;
      ChecksumIs(b, PpHash(h, tag, b[..c.length]), n);
      HighBits(b[0]);
    }
  }

  lemma HighBits(x: bv8)
    ensures (x as bv16) & 0x80 == 0 <==> x < 128
    ensures x < 128 ==> ((x as bv16) & 0x40 != 0 <==> x >= 64)
    ensures (x as bv16 == 46 <==> x == 46) && (x as bv16 == 47 <==> x == 47)
  {
  }

  /** With the checksum ignored or a prefix expected, the check is the weaker or the stronger one. */
  lemma DecodeOptions(h: Hash512, tag: Bytes, lib: Library, s: string, p: bv16)
    requires s != "" && !lib.isHex(s) && lib.decode(s).Some?
    ensures DecodeIdentifier(h, tag, lib, s, false, Some(p)) ==
      if UnpackPrefix(lib.decode(s).value) == p then DecodeIdentifier(h, tag, lib, s, false, None) else None
    ensures DecodeIdentifier(h, tag, lib, s, false, None).Some? ==>
      DecodeIdentifier(h, tag, lib, s, true, None) == DecodeIdentifier(h, tag, lib, s, false, None)
    ensures DecodeIdentifier(h, tag, lib, s, true, None).Some? <==>
      |lib.decode(s).value| in {3, 4, 6, 10, 35, 36, 37, 38}
  {
  }

  /** Hexadecimal text is passed through as its bytes; empty text and text that is no base58 are refused. */
  lemma OtherTexts(h: Hash512, tag: Bytes, lib: Library, s: string, ignore: bool, format: Option<bv16>)
    ensures s == "" ==> DecodeIdentifier(h, tag, lib, s, ignore, format) == None
    ensures s != "" && lib.isHex(s) ==> DecodeIdentifier(h, tag, lib, s, ignore, format) == Some(lib.fromHex(s))
    ensures s != "" && !lib.isHex(s) && lib.decode(s) == None ==>
      DecodeIdentifier(h, tag, lib, s, ignore, format) == None
  {
  }
}
