/** The text that is hashed, the salted hash, and the hashing of statements. */
module Crypto {
  import opened Decimal
  import opened Json
  import opened JsonAbc
  import opened Sorting
  import opened Texts
  import opened Wrappers

  predicate IsLowerHex(c: char) {
    '0' <= c <= '9' || 'a' <= c <= 'f'
  }

  predicate AllLowerHex(s: string) {
    forall i :: 0 <= i < |s| ==> IsLowerHex(s[i])
  }

  predicate IsDigest(s: string) {
    |s| == 66 && s[0] == '0' && s[1] == 'x' && forall i :: 2 <= i < 66 ==> IsLowerHex(s[i])
  }

  /** The hex rendering of a 256-bit hash. */
  type Digest = s: string | IsDigest(s)
    witness "0x" + Zeros(64)

  /** The underlying hash; nothing is assumed of it but the width of its output. */
  type Hash = string -> Digest

  /** Where nonces come from: a map keyed by digest, or a generator called once per statement. */
  datatype NonceSource = Nonces(nonces: map<string, string>) | Generator(generate: (nat, string) -> string)

  datatype Hashed = Hashed(digest: Digest, statement: string, saltedHash: Digest, nonce: Option<string>)

  /** An absent nonce counts as the empty one. */
  function NonceText(o: Option<string>): string {
    if o.Some? then o.value else ""
  }

  /** `saltedBlake2b256`. */
  function SaltedHash(h: Hash, value: string, nonce: Option<string>): Digest {
    h(NonceText(nonce) + value)
  }

  function GetNonce(src: NonceSource, i: nat, digest: string): Option<string> {
    match src
    case Nonces(m) => if digest in m then Some(m[digest]) else None
    case Generator(g) => Some(g(i, digest))
  }

  function HashStatement(h: Hash, src: NonceSource, i: nat, statement: string): Hashed {
    var digest := SaltedHash(h, statement, None);
    var nonce := GetNonce(src, i, digest);
    Hashed(digest, statement, SaltedHash(h, digest, nonce), nonce)
  }

  function HashStatements(h: Hash, statements: seq<string>, src: NonceSource): (r: seq<Hashed>)
    ensures |r| == |statements|
  {
    seq(|statements|, i requires 0 <= i < |statements| => HashStatement(h, src, i, statements[i]))
  }

  predicate Truthy(o: Option<string>) {
    o.Some? && o.value != ""
  }

  function HexNumber(s: string): int {
    if s == [] then 0 else 16 * HexNumber(s[..|s| - 1]) + HexValue(s[|s| - 1])
  }

  /** Hashes are compared as numbers. */
  function HexOrder(d: Digest): Key {
    [HexNumber(d[2..])]
  }

  lemma HexValueAscends(c: char, d: char)
    requires IsLowerHex(c) && IsLowerHex(d)
    ensures 0 <= HexValue(c) < 16 && (HexValue(c) <= HexValue(d) <==> c <= d)
  {
  }

  lemma HexStep(a: string, b: string)
    requires a != "" && b != "" && AllLowerHex(a) && AllLowerHex(b) && HexNumber(a) <= HexNumber(b)
    ensures var x, y, c, d := a[..|a| - 1], b[..|b| - 1], a[|a| - 1], b[|b| - 1];
      HexNumber(x) <= HexNumber(y) && (HexNumber(x) == HexNumber(y) ==> c <= d)
  {
    HexValueAscends(a[|a| - 1], b[|b| - 1]);
    HexValueAscends(b[|b| - 1], a[|a| - 1]);
  }

  lemma {:induction false} HexNumberInjective(a: string, b: string)
    requires |a| == |b| && AllLowerHex(a) && AllLowerHex(b)
    requires HexNumber(a) == HexNumber(b)
    ensures a == b
  {
    if a != [] {
      var n := |a| - 1;
      HexStep(a, b);
      HexStep(b, a);
      HexNumberInjective(a[..n], b[..n]);
      assert a == a[..n] + [a[n]] && b == b[..n] + [b[n]];
    }
  }

  lemma DifferEarlier(x: string, y: string, c: char, d: char)
    requires |x| == |y| && TextLe(x, y) && (x == y ==> c <= d)
    ensures TextLe(x + [c], y + [d])
  {
    var a, b := x + [c], y + [d];
    if i :| DiffersUp(x, y, i) {
      assert a[..i] == x[..i] && b[..i] == y[..i];
      assert DiffersUp(a, b, i);
    } else {
      assert x == y;
      if c < d {
        assert a[..|x|] == x && b[..|y|] == y;
        assert DiffersUp(a, b, |x|);
      }
    }
  }

  /** Of numbers in hexadecimal with equally many digits, the smaller one is also the smaller text. */
  lemma {:induction false} HexAscends(a: string, b: string)
    requires |a| == |b| && AllLowerHex(a) && AllLowerHex(b) && HexNumber(a) <= HexNumber(b)
    ensures TextLe(a, b)
  {
    if a != "" {
      var n := |a| - 1;
      HexStep(a, b);
      HexAscends(a[..n], b[..n]);
      DifferEarlier(a[..n], b[..n], a[n], b[n]);
      assert a == a[..n] + [a[n]] && b == b[..n] + [b[n]];
    }
  }

  /** Different digests are different numbers, so the numeric order sorts them completely. */
  lemma HexOrderInjective(s: seq<Digest>)
    ensures InjectiveOn(HexOrder, s)
  {
    forall x, y | x in s && y in s && HexOrder(x) == HexOrder(y) ensures x == y {
      assert HexOrder(x)[0] == HexNumber(x[2..]) && HexOrder(y)[0] == HexNumber(y[2..]);
      HexNumberInjective(x[2..], y[2..]);
      assert x == ['0', 'x'] + x[2..] && y == ['0', 'x'] + y[2..];
    }
  }

  lemma DigestsAscend(d: Digest, e: Digest)
    requires LexLe(HexOrder(d), HexOrder(e))
    ensures TextLe(d, e)
  {
    HexAscends(d[2..], e[2..]);
    assert d == "0x" + d[2..] && e == "0x" + e[2..];
    if i :| DiffersUp(d[2..], e[2..], i) {
      assert d[..i + 2] == "0x" + d[2..][..i] && e[..i + 2] == "0x" + e[2..][..i];
      assert DiffersUp(d, e, i + 2);
    }
  }

  // ---------- encodeObjectAsStr ----------

  /** `String.prototype.normalize('NFC')`, whatever its tables say. */
  type Normalizing = string -> string

  datatype Encoded = Text(text: string) | TypeError

  /** The text before it is normalised. */
  function InputText(lower: Lowering, x: Json): string
    requires !x.Null?
  {
    match x
    case Arr(_) => Stringify(SortObj(lower, x))
    case Obj(_) => Stringify(SortObj(lower, x))
    case Num(tok) => tok
    case Bool(_) => Stringify(x)
    case Str(s) => s
  }

  /** `null` reaches `normalize` as itself. */
  function EncodeObjectAsStr(lower: Lowering, nfc: Normalizing, x: Json): Encoded {
    if x.Null? then TypeError else Text(nfc(InputText(lower, x)))
  }

  /** The string `x` is the text of `y`, which is no string. */
  predicate Spells(lower: Lowering, x: Json, y: Json) {
    x.Str? && !y.Str? && !y.Null? && x.s == InputText(lower, y)
  }

  /** Normalisation does not merge the texts of these two values. */
  predicate KeptApart(lower: Lowering, nfc: Normalizing, x: Json, y: Json) {
    !x.Null? && !y.Null? && nfc(InputText(lower, x)) == nfc(InputText(lower, y)) ==>
      InputText(lower, x) == InputText(lower, y)
  }

  lemma SameInputText(lower: Lowering, x: Json, y: Json)
    requires !x.Null? && !y.Null? && InputText(lower, x) == InputText(lower, y)
    ensures SortObj(lower, x) == SortObj(lower, y) || Spells(lower, x, y) || Spells(lower, y, x)
  {
    if !x.Str? && !y.Str? {
      assert InputText(lower, x) == Stringify(SortObj(lower, x)) && InputText(lower, y) == Stringify(SortObj(lower, y));
      StringifyInjective(SortObj(lower, x), SortObj(lower, y));
    }
  }

  /**
   * Values whose texts normalisation keeps apart get one result exactly when they have one canonical form, or one is a
   * string that spells the other.
   */
  lemma EncodeExactly(lower: Lowering, nfc: Normalizing, x: Json, y: Json)
    requires KeptApart(lower, nfc, x, y)
    ensures EncodeObjectAsStr(lower, nfc, x) == EncodeObjectAsStr(lower, nfc, y) <==>
      SortObj(lower, x) == SortObj(lower, y) || Spells(lower, x, y) || Spells(lower, y, x)
  {
    if EncodeObjectAsStr(lower, nfc, x) == EncodeObjectAsStr(lower, nfc, y) && !x.Null? {
      SameInputText(lower, x, y);
    }
  }

  /**
   * Different results mean different values, and one result means values equal up to order or one spelling the other:
   * the first half asks for keys distinct after lower-casing, the second for texts that normalisation keeps apart.
   */
  lemma EncodeDecides(lower: Lowering, nfc: Normalizing, x: Json, y: Json)
    ensures CaseDistinct(lower, x) && Equivalent(x, y) ==>
      EncodeObjectAsStr(lower, nfc, x) == EncodeObjectAsStr(lower, nfc, y)
    ensures Spells(lower, x, y) || Spells(lower, y, x) ==>
      EncodeObjectAsStr(lower, nfc, x) == EncodeObjectAsStr(lower, nfc, y)
    ensures KeptApart(lower, nfc, x, y) && EncodeObjectAsStr(lower, nfc, x) == EncodeObjectAsStr(lower, nfc, y) ==>
      Equivalent(x, y) || Spells(lower, x, y) || Spells(lower, y, x)
  {
    if CaseDistinct(lower, x) && Equivalent(x, y) {
      EquivalentSameResult(lower, x, y);
      SameKind(lower, x, y);
    }
    if KeptApart(lower, nfc, x, y) {
      EncodeExactly(lower, nfc, x, y);
      if SortObj(lower, x) == SortObj(lower, y) {
        SameResultEquivalent(lower, x, y);
      }
    }
  }

  lemma SameKind(lower: Lowering, x: Json, y: Json)
    requires SortObj(lower, x) == SortObj(lower, y)
    ensures x.Null? == y.Null? && (!x.Null? ==> InputText(lower, x) == InputText(lower, y))
  {
  }

  /** Texts are normalised: a string by itself, and two texts that normalise alike get one result. */
  lemma EncodeNormalises(lower: Lowering, nfc: Normalizing, x: Json, y: Json)
    ensures x.Str? ==> EncodeObjectAsStr(lower, nfc, x) == Text(nfc(x.s))
    ensures x.Bool? ==> EncodeObjectAsStr(lower, nfc, x) == Text(nfc(if x.b then "true" else "false"))
    ensures x.Num? ==> EncodeObjectAsStr(lower, nfc, x) == Text(nfc(x.tok))
    ensures x.Arr? || x.Obj? ==> EncodeObjectAsStr(lower, nfc, x) == Text(nfc(Stringify(SortObj(lower, x))))
    ensures x.Null? ==> EncodeObjectAsStr(lower, nfc, x) == TypeError
    ensures x.Str? && y.Str? && nfc(x.s) == nfc(y.s) ==>
      EncodeObjectAsStr(lower, nfc, x) == EncodeObjectAsStr(lower, nfc, y)
  {
  }

  /** The encoding is not injective across kinds: a string may spell another value. */
  lemma EncodeConfusesKinds(lower: Lowering, nfc: Normalizing)
    ensures EncodeObjectAsStr(lower, nfc, Str("{}")) == EncodeObjectAsStr(lower, nfc, Obj([]))
    ensures !Equivalent(Str("{}"), Obj([]))
  {
    ObjectResult(lower, []);
  }
}
