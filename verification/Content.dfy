/** The statements of a credential's content, and what is published and verified of them. */
module Content {
  import opened Crypto
  import opened Decimal
  import opened HashList
  import opened Json
  import opened JsonAbc
  import opened Sorting
  import opened Texts
  import opened Wrappers

  // ---------- contents and their statements ----------

  /** A schema id is rendered into text even when there is none. */
  datatype SchemaId = Undefined | NullId | Id(text: string)

  /** A full or partial content; where the code treats null and undefined alike, both are `None`. */
  datatype Content = Content(schemaId: SchemaId, contents: Option<seq<Member>>,
                             holder: Option<string>, issuer: Option<string>)

  function SchemaText(c: Content): string {
    match c.schemaId
    case Undefined => "undefined"
    case NullId => "null"
    case Id(text) => text
  }

  /** The prefix of expanded keys. A missing schema id is rendered, not rejected: the error is built but not thrown. */
  function Vocabulary(c: Content): (v: string)
    ensures |v| > 0 && v[|v| - 1] == '#'
  {
    SchemaText(c) + "#"
  }

  function Attributes(c: Content): seq<Member> {
    if c.contents.Some? then c.contents.value else []
  }

  /** What every JavaScript object given as a content satisfies. */
  ghost predicate IsContent(c: Content) {
    WellFormed(Obj(Attributes(c)))
  }

  function Heading(c: Content): seq<Member> {
    (if Truthy(c.issuer) then [Member("@issuer", Str(c.issuer.value))] else []) +
    (if Truthy(c.holder) then [Member("@holder", Str(c.holder.value))] else [])
  }

  predicate IsContainer(x: Json) {
    x.Arr? || x.Obj?
  }

  /** `Object.entries` of an array or an object. */
  function EntriesOf(x: Json): (ms: seq<Member>)
    requires IsContainer(x)
    ensures |ms| == if x.Arr? then |x.elems| else |x.members|
  {
    match x
    case Arr(xs) => seq(|xs|, i requires 0 <= i < |xs| => Member(Digits(i), xs[i]))
    case Obj(ms) => ms
  }

  function Prefixed(vocab: string, ms: seq<Member>): (r: seq<Member>)
    ensures |r| == |ms|
  {
    seq(|ms|, i requires 0 <= i < |ms| => Member(vocab + ms[i].key, ms[i].value))
  }

  /** What `sortObj` makes of a container, read as members: array positions are keys. */
  function SortedEntries(lower: Lowering, v: Json): seq<Member>
    requires IsContainer(v)
  {
    EntriesOf(SortObj(lower, v))
  }

  /** The value written under an expanded key: the top-level keys of a container are prefixed too. */
  function ExpandValue(lower: Lowering, vocab: string, v: Json): Json {
    if IsContainer(v) then Obj(Prefixed(vocab, SortedEntries(lower, v))) else v
  }

  function ExpandAttribute(lower: Lowering, vocab: string): Member -> Member {
    (m: Member) => Member(vocab + m.key, ExpandValue(lower, vocab, m.value))
  }

  /** `Object.entries(null)` throws, so a null attribute stops the expansion. */
  predicate Expandable(c: Content) {
    forall m :: m in Attributes(c) ==> !m.value.Null?
  }

  /** The members of the expanded JSON-LD form. */
  function Expand(lower: Lowering, c: Content): seq<Member> {
    Heading(c) + Map(ExpandAttribute(lower, Vocabulary(c)), Attributes(c))
  }

  function StatementText(m: Member): string {
    Stringify(Obj([m]))
  }

  /** `makeStatementsJsonLD`: one single-entry rendering per member. */
  function Statements(lower: Lowering, c: Content): seq<string> {
    Map(StatementText, Expand(lower, c))
  }

  /** The content after its statements have been made. */
  function AfterContent(lower: Lowering, c: Content): Content {
    if c.contents.None? then c
    else c.(contents := Some(Map((m: Member) => Member(m.key, After(lower, m.value)), c.contents.value)))
  }

  // ---------- building the expanded form ----------

  /** The assignment `o[m.key] = m.value` for a key that is no index: overwrite in place, or add at the end. */
  function Put(ms: seq<Member>, m: Member): seq<Member> {
    if ms == [] then [m]
    else if ms[0].key == m.key then [m] + ms[1..]
    else [ms[0]] + Put(ms[1..], m)
  }

  lemma {:induction false} PutFresh(ms: seq<Member>, m: Member)
    requires forall i :: 0 <= i < |ms| ==> ms[i].key != m.key
    ensures Put(ms, m) == ms + [m]
  {
    if ms != [] {
      PutFresh(ms[1..], m);
    }
  }

  lemma EntriesDistinct(x: Json)
    requires IsContainer(x) && WellFormed(x)
    ensures DistinctKeys(EntriesOf(x))
  {
    if x.Arr? {
      forall i, j | 0 <= i < j < |x.elems| ensures Digits(i) != Digits(j) {
        if Digits(i) == Digits(j) { DigitsInjective(i, j); }
      }
    }
  }

  method PrefixEntries(vocab: string, entries: seq<Member>) returns (newObj: seq<Member>)
    requires DistinctKeys(entries)
    ensures newObj == Prefixed(vocab, entries)
  {
    newObj := [];
    for i := 0 to |entries|
      invariant newObj == Prefixed(vocab, entries)[..i]
    {
      var m := Member(vocab + entries[i].key, entries[i].value);
      forall k | 0 <= k < i ensures newObj[k].key != m.key {
        if newObj[k].key == m.key { DropSame(vocab, entries[k].key, entries[i].key); }
      }
      PutFresh(newObj, m);
      newObj := Put(newObj, m);
    }
  }

  /** Attribute keys carry the `#` of the vocabulary, so they never meet `@issuer` or `@holder`. */
  lemma ExpandedKeysDiffer(lower: Lowering, c: Content, i: int, j: int)
    requires DistinctKeys(Attributes(c))
    requires 0 <= i < j < |Expand(lower, c)|
    ensures Expand(lower, c)[i].key != Expand(lower, c)[j].key
  {
    var n := |Heading(c)|;
    var vocab := Vocabulary(c);
    if i < n <= j {
      var k := Attributes(c)[j - n].key;
      assert (vocab + k)[|vocab| - 1] == '#';
      assert '#' in vocab + k;
      assert '#' !in "@issuer" && '#' !in "@holder";
    } else if n <= i && Expand(lower, c)[i].key == Expand(lower, c)[j].key {
      DropSame(vocab, Attributes(c)[i - n].key, Attributes(c)[j - n].key);
    }
  }

  /** No expanded key is an index, so the expanded form is enumerated as it is filled. */
  lemma ExpandedNoIndex(lower: Lowering, c: Content, i: int)
    requires 0 <= i < |Expand(lower, c)|
    ensures !IsIndex(Expand(lower, c)[i].key)
  {
    var key, vocab := Expand(lower, c)[i].key, Vocabulary(c);
    if i < |Heading(c)| {
      assert key[0] == '@';
    } else {
      assert key[|vocab| - 1] == '#';
    }
  }

  lemma PutAt(ms: seq<Member>, n: int)
    requires 0 <= n < |ms| && forall k :: 0 <= k < n ==> ms[k].key != ms[n].key
    ensures Put(ms[..n], ms[n]) == ms[..n + 1]
  {
    PutFresh(ms[..n], ms[n]);
  }

  lemma PutNext(lower: Lowering, c: Content, n: int)
    requires DistinctKeys(Attributes(c))
    requires 0 <= n < |Expand(lower, c)|
    ensures Put(Expand(lower, c)[..n], Expand(lower, c)[n]) == Expand(lower, c)[..n + 1]
  {
    var e := Expand(lower, c);
    forall k | 0 <= k < n ensures e[k].key != e[n].key {
      ExpandedKeysDiffer(lower, c, k, n);
    }
    PutAt(e, n);
  }

  method PutHeading(c: Content) returns (result: seq<Member>)
    ensures result == Heading(c)
  {
    result := [];
    if Truthy(c.issuer) {
      result := Put(result, Member("@issuer", Str(c.issuer.value)));
    }
    if Truthy(c.holder) {
      assert "@issuer"[1] != "@holder"[1];
      PutFresh(result, Member("@holder", Str(c.holder.value)));
      result := Put(result, Member("@holder", Str(c.holder.value)));
    }
  }

  /** The value of one attribute in expanded form, and what is left of the attribute. */
  method ExpandInPlace(lower: Lowering, vocab: string, value: Json) returns (val: Json, after: Json)
    requires WellFormed(value) && !value.Null?
    ensures val == ExpandValue(lower, vocab, value)
    ensures after == After(lower, value)
  {
    val, after := value, value;
    if IsContainer(value) {
      var sorted := SortObj(lower, value);
      after := After(lower, value);
      SortKeepsWellFormed(lower, value);
      EntriesDistinct(sorted);
      var newObj := PrefixEntries(vocab, EntriesOf(sorted));
      val := Obj(newObj);
    }
  }

  lemma ExpandedAt(lower: Lowering, c: Content, i: int)
    requires 0 <= i < |Attributes(c)|
    ensures |Heading(c)| + i < |Expand(lower, c)|
    ensures Expand(lower, c)[|Heading(c)| + i] == ExpandAttribute(lower, Vocabulary(c))(Attributes(c)[i])
  {
  }

  /** The result after the first `n` attributes. */
  ghost function ExpandedTo(lower: Lowering, c: Content, n: nat): seq<Member>
    requires n <= |Attributes(c)|
  {
    if n == 0 then Heading(c)
    else ExpandedTo(lower, c, n - 1) + [ExpandAttribute(lower, Vocabulary(c))(Attributes(c)[n - 1])]
  }

  lemma {:induction false} ExpandedToIs(lower: Lowering, c: Content, n: nat)
    requires n <= |Attributes(c)|
    ensures ExpandedTo(lower, c, n) == Expand(lower, c)[..|Heading(c)| + n]
  {
    var e := Expand(lower, c);
    if n > 0 {
      ExpandedToIs(lower, c, n - 1);
      ExpandedAt(lower, c, n - 1);
      assert e[..|Heading(c)| + n] == e[..|Heading(c)| + n - 1] + [e[|Heading(c)| + n - 1]];
    }
  }

  /** The attributes after the first `n` turns. */
  ghost function LeftTo(lower: Lowering, ms: seq<Member>, n: nat): (r: seq<Member>)
    requires n <= |ms|
    ensures |r| == |ms|
  {
    if n == 0 then ms
    else LeftTo(lower, ms, n - 1)[n - 1 := Member(ms[n - 1].key, After(lower, ms[n - 1].value))]
  }

  lemma {:induction false} LeftToAt(lower: Lowering, ms: seq<Member>, n: nat, k: int)
    requires n <= |ms| && 0 <= k < |ms|
    ensures LeftTo(lower, ms, n)[k] == if k < n then Member(ms[k].key, After(lower, ms[k].value)) else ms[k]
  {
    if n > 0 {
      LeftToAt(lower, ms, n - 1, k);
    }
  }

  /** None of the first `n` values is null. */
  ghost predicate NoNullTo(ms: seq<Member>, n: nat)
    requires n <= |ms|
  {
    n == 0 || (NoNullTo(ms, n - 1) && !ms[n - 1].value.Null?)
  }

  lemma {:induction false} NoNullIs(ms: seq<Member>, n: nat)
    requires n <= |ms|
    ensures NoNullTo(ms, n) <==> forall k :: 0 <= k < n ==> !ms[k].value.Null?
  {
    if n > 0 {
      NoNullIs(ms, n - 1);
    }
  }

  lemma ExpandableIs(c: Content)
    ensures Expandable(c) <==> NoNullTo(Attributes(c), |Attributes(c)|)
  {
    NoNullIs(Attributes(c), |Attributes(c)|);
  }

  lemma NullStops(c: Content, i: int)
    requires 0 <= i < |Attributes(c)| && Attributes(c)[i].value.Null?
    ensures !Expandable(c)
  {
    assert Attributes(c)[i] in Attributes(c);
  }

  lemma AllTurns(lower: Lowering, c: Content)
    ensures ExpandedTo(lower, c, |Attributes(c)|) == Expand(lower, c)
    ensures LeftTo(lower, Attributes(c), |Attributes(c)|) == Attributes(AfterContent(lower, c))
  {
    var n := |Attributes(c)|;
    ExpandedToIs(lower, c, n);
    assert Expand(lower, c)[..|Heading(c)| + n] == Expand(lower, c);
    forall k | 0 <= k < n
      ensures LeftTo(lower, Attributes(c), n)[k] == Attributes(AfterContent(lower, c))[k]
    {
      LeftToAt(lower, Attributes(c), n, k);
    }
  }

  lemma PutTurn(lower: Lowering, c: Content, i: nat)
    requires DistinctKeys(Attributes(c)) && i < |Attributes(c)|
    ensures Put(ExpandedTo(lower, c, i), ExpandAttribute(lower, Vocabulary(c))(Attributes(c)[i])) ==
      ExpandedTo(lower, c, i + 1)
  {
    ExpandedAt(lower, c, i);
    PutNext(lower, c, |Heading(c)| + i);
    ExpandedToIs(lower, c, i);
    ExpandedToIs(lower, c, i + 1);
  }

  /** One turn of the loop: `result[vocabulary + key] = val`. */
  method ExpandNext(lower: Lowering, c: Content, i: nat, result: seq<Member>) returns (r: seq<Member>, left: Json)
    requires IsContent(c) && i < |Attributes(c)| && !Attributes(c)[i].value.Null?
    requires result == ExpandedTo(lower, c, i)
    ensures r == ExpandedTo(lower, c, i + 1)
    ensures left == After(lower, Attributes(c)[i].value)
  {
    var m := Attributes(c)[i];
    var val;
    val, left := ExpandInPlace(lower, Vocabulary(c), m.value);
    PutTurn(lower, c, i);
    r := Put(result, Member(Vocabulary(c) + m.key, val));
  }

  /** `jsonLDcontents` in expanded form: fills the result attribute by attribute, sorting arrays of the argument. */
  method JsonLdContents(lower: Lowering, c: Content) returns (r: Outcome<seq<Member>, Error>, after: seq<Member>)
    requires IsContent(c)
    ensures r == if Expandable(c) then Ok(Expand(lower, c)) else Thrown(Error.TypeError)
    ensures Expandable(c) ==> after == Attributes(AfterContent(lower, c))
  {
    var attributes := Attributes(c);
    var result := PutHeading(c);
    after := attributes;
    for i := 0 to |attributes|
      invariant result == ExpandedTo(lower, c, i) && after == LeftTo(lower, attributes, i)
      invariant NoNullTo(attributes, i)
    {
      var m := attributes[i];
      if m.value.Null? {
        NullStops(c, i);
        return Thrown(Error.TypeError), after;
      }
      var value;
      result, value := ExpandNext(lower, c, i, result);
      after := after[i := Member(m.key, value)];
    }
    AllTurns(lower, c);
    ExpandableIs(c);
    r := Ok(result);
  }

  // ---------- statements are distinct ----------

  lemma StatementTextInjective(m: Member, n: Member)
    requires StatementText(m) == StatementText(n)
    ensures m == n
  {
    StringifyInjective(Obj([m]), Obj([n]));
    assert [m][0] == [n][0];
  }

  /** No two statements of one content are the same text. */
  lemma StatementsDistinct(lower: Lowering, c: Content, i: int, j: int)
    requires DistinctKeys(Attributes(c))
    requires 0 <= i < j < |Statements(lower, c)|
    ensures Statements(lower, c)[i] != Statements(lower, c)[j]
  {
    ExpandedKeysDiffer(lower, c, i, j);
    if Statements(lower, c)[i] == Statements(lower, c)[j] {
      StatementTextInjective(Expand(lower, c)[i], Expand(lower, c)[j]);
    }
  }

  // ---------- what the statements say ----------

  /** The text of a schema id, or of its absence. */
  lemma SchemaTexts(c: Content)
    ensures match c.schemaId
      case Id(text) => SchemaText(c) == text
      case Undefined => SchemaText(c) == "undefined"
      case NullId => SchemaText(c) == "null"
  {
  }

  /** There is one statement for each heading that is there, in this order, and then one for each attribute. */
  lemma StatementsListed(lower: Lowering, c: Content)
    ensures var issuer := if Truthy(c.issuer) then [Stringify(Obj([Member("@issuer", Str(c.issuer.value))]))] else [];
      var holder := if Truthy(c.holder) then [Stringify(Obj([Member("@holder", Str(c.holder.value))]))] else [];
      && |Statements(lower, c)| == |issuer| + |holder| + |Attributes(c)|
      && Statements(lower, c)[..|issuer| + |holder|] == issuer + holder
  {
    var issuer := if Truthy(c.issuer) then [Stringify(Obj([Member("@issuer", Str(c.issuer.value))]))] else [];
    var holder := if Truthy(c.holder) then [Stringify(Obj([Member("@holder", Str(c.holder.value))]))] else [];
    assert Map(StatementText, Heading(c)) == issuer + holder;
    assert Statements(lower, c)[..|Heading(c)|] == Map(StatementText, Heading(c));
  }

  /** The position of an attribute's statement: behind those of the heading, in the order of the attributes. */
  function StatementIndex(c: Content, i: nat): nat {
    (if Truthy(c.issuer) then 1 else 0) + (if Truthy(c.holder) then 1 else 0) + i
  }

  lemma StatementOf(lower: Lowering, c: Content, i: nat)
    requires i < |Attributes(c)|
    ensures StatementIndex(c, i) < |Statements(lower, c)|
    ensures Statements(lower, c)[StatementIndex(c, i)] ==
      StatementText(Member(SchemaText(c) + "#" + Attributes(c)[i].key,
                           ExpandValue(lower, SchemaText(c) + "#", Attributes(c)[i].value)))
  {
    ExpandedAt(lower, c, i);
    assert |Heading(c)| == StatementIndex(c, 0);
  }

  /** An attribute that is no container is written as it is, under its key behind the schema id. */
  lemma PlainAttributeWritten(lower: Lowering, c: Content, i: nat)
    requires i < |Attributes(c)| && !Attributes(c)[i].value.Arr? && !Attributes(c)[i].value.Obj?
    ensures var a := Attributes(c)[i];
      && StatementIndex(c, i) < |Statements(lower, c)|
      && Statements(lower, c)[StatementIndex(c, i)] == Stringify(Obj([Member(SchemaText(c) + "#" + a.key, a.value)]))
  {
    StatementOf(lower, c, i);
  }

  /** The members with their keys behind the schema id, and their values unchanged. */
  ghost predicate IsWritten(text: string, ms: seq<Member>, ns: seq<Member>) {
    |ns| == |ms| && forall k :: 0 <= k < |ms| ==> ns[k].key == text + "#" + ms[k].key && ns[k].value == ms[k].value
  }

  /** An object is written sorted, with the keys of its members behind the schema id. */
  lemma ObjectAttributeWritten(lower: Lowering, c: Content, i: nat) returns (ns: seq<Member>)
    requires i < |Attributes(c)| && Attributes(c)[i].value.Obj?
    ensures IsWritten(SchemaText(c), SortObj(lower, Attributes(c)[i].value).members, ns)
    ensures StatementIndex(c, i) < |Statements(lower, c)|
    ensures Statements(lower, c)[StatementIndex(c, i)] ==
      Stringify(Obj([Member(SchemaText(c) + "#" + Attributes(c)[i].key, Obj(ns))]))
  {
    ns := Prefixed(SchemaText(c) + "#", SortObj(lower, Attributes(c)[i].value).members);
    StatementOf(lower, c, i);
  }

  /** An array is written as the object of its sorted elements, with their positions behind the schema id. */
  lemma ArrayAttributeWritten(lower: Lowering, c: Content, i: nat) returns (ns: seq<Member>)
    requires i < |Attributes(c)| && Attributes(c)[i].value.Arr?
    ensures var xs := SortObj(lower, Attributes(c)[i].value).elems;
      |ns| == |xs| && forall k :: 0 <= k < |xs| ==> ns[k] == Member(SchemaText(c) + "#" + Digits(k), xs[k])
    ensures StatementIndex(c, i) < |Statements(lower, c)|
    ensures Statements(lower, c)[StatementIndex(c, i)] ==
      Stringify(Obj([Member(SchemaText(c) + "#" + Attributes(c)[i].key, Obj(ns))]))
  {
    ns := Prefixed(SchemaText(c) + "#", EntriesOf(SortObj(lower, Attributes(c)[i].value)));
    StatementOf(lower, c, i);
  }

  /** What the call leaves of the content: each attribute as `sortObj` leaves it, and all else as it was. */
  lemma ContentLeft(lower: Lowering, c: Content)
    ensures var d := AfterContent(lower, c);
      && d.schemaId == c.schemaId && d.issuer == c.issuer && d.holder == c.holder
      && |Attributes(d)| == |Attributes(c)|
      && forall i :: 0 <= i < |Attributes(c)| ==>
        Attributes(d)[i] == Member(Attributes(c)[i].key, After(lower, Attributes(c)[i].value))
  {
  }

  // ---------- the exported operations ----------

  /** What `hashContents` returns or throws. */
  function HashOutcome(h: Hash, lower: Lowering, c: Content, src: NonceSource): Outcome<Published, Error> {
    if Expandable(c) then Publish(h, Statements(lower, c), src) else Thrown(Error.TypeError)
  }

  /** What `verifyDisclosedAttributes` returns or throws. */
  function VerifyOutcome(h: Hash, lower: Lowering, d: Content, nonces: map<string, string>,
                         hashes: seq<string>): Outcome<(), Error> {
    if Expandable(d) then Verify(h, Statements(lower, d), nonces, hashes) else Thrown(Error.TypeError)
  }

  /** A null attribute stops both calls, whatever else is given. */
  lemma NullAttributeThrows(h: Hash, lower: Lowering, c: Content, src: NonceSource, nonces: map<string, string>,
                            hashes: seq<string>, a: Member)
    requires a in Attributes(c) && a.value == Null
    ensures HashOutcome(h, lower, c, src) == Thrown(Error.TypeError)
    ensures VerifyOutcome(h, lower, c, nonces, hashes) == Thrown(Error.TypeError)
  {
  }

  /** Without one, and with a nonce generated for each statement, the content is published under these nonces. */
  lemma HashedWithGenerated(h: Hash, lower: Lowering, c: Content, g: (nat, string) -> string, ns: seq<string>)
    requires forall a :: a in Attributes(c) ==> a.value != Null
    requires |ns| == |Statements(lower, c)|
    requires forall i :: 0 <= i < |ns| ==> ns[i] == g(i, h(Statements(lower, c)[i])) && ns[i] != ""
    ensures PublishedWith(h, Statements(lower, c), ns, HashOutcome(h, lower, c, Generator(g)))
  {
    GeneratedNonces(h, Statements(lower, c), g, ns);
  }

  /** Or with a map that has a nonce for each digest. */
  lemma HashedWithGiven(h: Hash, lower: Lowering, c: Content, m: map<string, string>, ns: seq<string>)
    requires forall a :: a in Attributes(c) ==> a.value != Null
    requires |ns| == |Statements(lower, c)|
    requires forall i :: 0 <= i < |ns| ==>
      h(Statements(lower, c)[i]) in m && ns[i] == m[h(Statements(lower, c)[i])] && ns[i] != ""
    ensures PublishedWith(h, Statements(lower, c), ns, HashOutcome(h, lower, c, Nonces(m)))
  {
    GivenNonces(h, Statements(lower, c), m, ns);
  }

  method MakeStatements(lower: Lowering, c: Content) returns (r: Outcome<seq<string>, Error>, after: seq<Member>)
    requires IsContent(c)
    ensures r == if Expandable(c) then Ok(Statements(lower, c)) else Thrown(Error.TypeError)
    ensures Expandable(c) ==> after == Attributes(AfterContent(lower, c))
  {
    var normalized;
    normalized, after := JsonLdContents(lower, c);
    if normalized.Thrown? {
      return Thrown(normalized.error), after;
    }
    return Ok(Map(StatementText, normalized.value)), after;
  }

  method HashContents(h: Hash, lower: Lowering, c: Content, src: NonceSource)
    returns (r: Outcome<Published, Error>, after: seq<Member>)
    requires IsContent(c)
    ensures r == HashOutcome(h, lower, c, src)
    ensures Expandable(c) ==> after == Attributes(AfterContent(lower, c))
  {
    var statements;
    statements, after := MakeStatements(lower, c);
    if statements.Thrown? {
      return Thrown(statements.error), after;
    }
    r := HashAndPublish(h, statements.value, src);
  }

  method VerifyDisclosedAttributes(h: Hash, lower: Lowering, d: Content, nonces: map<string, string>,
                                   hashes: seq<string>)
    returns (r: Outcome<(), Error>)
    requires IsContent(d)
    ensures r == VerifyOutcome(h, lower, d, nonces, hashes)
    ensures r.Ok? <==> Expandable(d) && Accepts(h, Statements(lower, d), nonces, hashes)
  {
    var statements, after := MakeStatements(lower, d);
    if statements.Thrown? {
      return Thrown(statements.error);
    }
    r := VerifyStatements(h, statements.value, nonces, hashes);
  }
}
