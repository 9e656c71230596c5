# Verified model of the CORD JavaScript SDK's core logic

Canonical JSON and the selective-disclosure proofs built on it, the authorisation of batched DID
calls, the identifier codec, the conversion of amounts to picoWAY, and the DID document in its
four views. `dafny verify dfyconfig.toml` checks everything.

| module | what it holds |
|---|---|
| `Sorting`, `Decimal`, `Texts`, `Wrappers` | a stable sort and what determines its result; digit strings; a string lemma; `Option` |
| `Json` | JSON values, the order in which keys are enumerated, and `JSON.stringify`, which a reader undoes |
| `JsonAbc` | `sortObj` as a function: a complete canonical form, and exactly when |
| `JsonSettles`, `JsonHeap` | `sortObj` as the code has it, in place on mutable arrays and objects that may be shared, refining `JsonAbc` |
| `Crypto`, `HashList` | the text that is hashed, salted hashes, the published list, its verification |
| `Content` | the expanded form of a content and its statements, published and verified |
| `StatementValues`, `ContentSchemas` | what a statement fixes of the value of its attribute, and of the schema |
| `ContentParts`, `Disclosure` | parts of a content; soundness and completeness of disclosure |
| `DidBatch`, `DidAuthorize` | key detection, grouping, signing, and the counter on chain as a state machine |
| `Identifier`, `IdentifierUri` | packed prefix, checksum, base58 text, URI prefixes |
| `Balance` | decimal amounts in metric units |
| `DidUri`, `DidKeys`, `DidExport` | DID URIs; keys on chain, in the document, by resolution, in the W3C export |

What the code calls but does not define is a parameter: `toLowerCase` (`lower`), `normalize('NFC')` (`nfc`), the 256-bit hash of
strings (`h`, of which only the width of the hex text is used), the 512-bit hash of bytes, base58 and
hexadecimal (`lib`), the nonce generator, the contents of the chain. No hash is taken to be
injective; where it matters, `CollisionFree` speaks of the finitely many texts hashed in the two
runs that are compared. Nothing of the nonces is assumed.

## Where the code differs from what it promises

- `sortObj` promises one result for equal contents. It fails when two keys of one object, neither of them an array
  index, agree after lower-casing (`CollisionExample`), and only then (`CanonicalExactly`, `SortKeyTies`).
- `jsonLDcontents` builds the error for a missing schema id without throwing it, so such a content gets
  the vocabulary `undefined#` or `null#`; a `null` attribute, on the other hand, ends in a TypeError. `Vocabulary`
  and `Expandable` follow the code.
- A statement does not always fix its value: an array and an object can make the same one, as `[]` and `{}` do
  (`EmptyArrayPosesAsObject`). Every array does, whatever its length (`ArrayAlwaysPoses`); `ArrayPosesExactly` says which
  pairs do, and `FixesValueExactly` for which values a statement fixes the value up to order.
- A statement does not always fix its schema: with a `#` in an attribute key or in a schema id, one schema passes for
  another (`HashInKeyConfusesSchemas`). `FixesSchemaExactly` says for which contents the statements fix the vocabulary,
  and with it the schema (`VocabularyNamesSchema`), whatever is disclosed; `DisclosureFixesSchema`
  and `FlatFixesSchema` give the short criterion, no `#` in either.
- `increaseNonce` wraps only from the maximum itself, and starts at 0 when the increment is 0. A batch run
  is taken by the chain exactly within the bounds of `BatchRunAccepted`; a single call goes one counter
  further (`SingleRunAccepted`).
- The two packages put different tags in front of what they hash, `CRDIDFR` and `CIDPRE`. The codec is
  therefore modelled with the tag as a parameter: round trips hold for one tag, and `AcrossTags` states
  when one package reads the other's identifiers.
- `decodeIdentifier` also accepts texts that `encodeIdentifier` never makes; `DecodeThenEncode` says which.
  A two-byte prefix leaves room for three of the six payload lengths; `RoundTrip` says so.
- Where several key agreement keys exist, the export references only the first (`AgreementReferences`).
- A listed key id without an entry among the public keys makes resolution depart from the chain, and nothing else does
  (`AgreesExactly`); if it is the authentication key, every resolution throws (`DanglingAuthenticationBreaks`).

## Model

| member | source | states |
|---|---|---|
| Json.ReadBack | packages/utils/src/jsonabc.ts:50-54 | a JSON reader gets every value back from its text, whatever follows that could not continue a number |
| Json.ReadEscaped | packages/modules/src/content/Content.ts:92-94 | inside a string, every character is read back from its escape |
| Json.EscapesAreShort | packages/modules/src/content/Content.ts:92-94 | no character is escaped in more characters than it must be, and codes are in lower case |
| Json.StringifyUnique | packages/utils/src/jsonabc.ts:50-54 | two rendered values followed by anything that cannot continue a number are equal only if values and rests are equal: the text is prefix-safe |
| Json.StringifyInjective | packages/modules/src/content/Content.ts:92-94 | different JSON values have different texts |
| Sorting.SortCharacterised | packages/utils/src/jsonabc.ts:50-63 | a sorted sequence that keeps the members of each key in order is the result of the sort, so nothing depends on the algorithm |
| JsonAbc.ArrayResult | packages/utils/src/jsonabc.ts:42-54 | the first, textual sort of an array leaves no trace in the result: the second one decides |
| JsonAbc.CanonicalForm | packages/utils/src/jsonabc.ts:32-72 | for values without tying keys (not array indices, and equal after lower-casing), equal results if and only if equal up to the order of members and elements at every depth |
| JsonAbc.SameResultEquivalent | packages/utils/src/jsonabc.ts:32-72 | equal results come from values equal up to order, without any condition on keys |
| JsonAbc.EnumeratedSort | packages/utils/src/jsonabc.ts:57-66 | adding the keys in the order of the comparator and enumerating them, array indices first and by number, is one stable sort by a single key |
| JsonAbc.SortKeyTies | packages/utils/src/jsonabc.ts:59-63 | two different keys tie in that sort if and only if neither is an array index and they agree after lower-casing |
| JsonAbc.KeysAscend | packages/utils/src/jsonabc.ts:59-66 | keys of a result ascend: array indices first, by number, then the others by their lower-cased text, compared character by character |
| JsonAbc.TiesStay | packages/utils/src/jsonabc.ts:59-66 | members whose keys tie keep their order |
| JsonAbc.ElementsAscend | packages/utils/src/jsonabc.ts:50-54 | elements of a result ascend by their texts, compared character by character |
| JsonAbc.CanonicalExactly | packages/utils/src/jsonabc.ts:57-66 | every reordering that a JavaScript value can have is undone if and only if no object has two tying keys |
| JsonAbc.CollisionShows | packages/utils/src/jsonabc.ts:59-63 | wherever two keys tie, at any depth, there is a JavaScript value, equal up to order, with another result |
| JsonAbc.CollisionExample | packages/utils/src/jsonabc.ts:59-63 | one such pair of objects, with the keys `a` and `A` |
| JsonAbc.Idempotent | packages/utils/src/jsonabc.ts:32-72 | sorting again changes nothing, colliding keys or not |
| JsonAbc.AfterSameResult | packages/utils/src/jsonabc.ts:42-47 | the argument as it is after the call sorts to the same result |
| JsonSettles.AfterIdempotent | packages/utils/src/jsonabc.ts:42-47 | what a call leaves of its argument is left alone by the next |
| JsonSettles.ResultSettled | packages/utils/src/jsonabc.ts:32-72 | a later call leaves a result as it is |
| JsonAbc.NothingLost | packages/utils/src/jsonabc.ts:32-72 | result and mutated argument are both the input up to order: no member or element is lost or added at any depth |
| JsonAbc.SortKeepsWellFormed | packages/utils/src/jsonabc.ts:57-66 | a result of a JavaScript value is one: no key twice, and keys in the order in which they are enumerated |
| JsonHeap.SortObj | packages/utils/src/jsonabc.ts:32-72 | on mutable arrays and objects, shared or not, of which none contains itself: the result reads as `JsonAbc.SortObj` of the input and the argument itself as `JsonAbc.After`; objects stay as they are, new ones are fresh, and no array beside or above the argument is written |
| JsonHeap.OthersSettle | packages/utils/src/jsonabc.ts:42-47 | whatever else shares parts with the argument is equal up to order to what it was, sorts to the same result, and reads as before if it was sorted before |
| JsonHeap.PartsSettle | packages/utils/src/jsonabc.ts:37-66 | a value whose shared arrays were sorted by another call is on the way to its own sorted form |
| JsonHeap.SortElems | packages/utils/src/jsonabc.ts:42-54 | an in-place sort moves the elements, compared by their rendering, into the stable order |
| JsonHeap.SortArray | packages/utils/src/jsonabc.ts:37-55 | sort, overwrite each element, sort again: the array reads as the canonical form of what it was, even if elements share arrays with each other |
| JsonHeap.SortElement | packages/utils/src/jsonabc.ts:45-47 | one turn of the loop replaces one element by its result; the other elements stay in place, and what they read as has settled |
| JsonHeap.FillObject | packages/utils/src/jsonabc.ts:57-66 | the new object gets one entry per visited key and holds them as they are enumerated; no later visit undoes the result of an earlier one or what it left |
| JsonHeap.SortObject | packages/utils/src/jsonabc.ts:56-67 | the new object reads as the canonical form; the old one keeps its key order, with arrays below it sorted |
| Crypto.EncodeDecides | packages/utils/src/Crypto.ts:153-168 | values equal up to order get one result if keys stay distinct after lower-casing; values with one result are equal up to order or one spells the other, unless NFC merges their texts |
| Crypto.EncodeExactly | packages/utils/src/Crypto.ts:153-168 | for values whose texts NFC keeps apart: one result if and only if one canonical form, or one is a string that spells the other |
| Crypto.EncodeConfusesKinds | packages/utils/src/Crypto.ts:156-165 | the second case does occur: the string `{}` and the empty object |
| Crypto.EncodeNormalises | packages/utils/src/Crypto.ts:153-168 | the text that is normalised, kind by kind, and the TypeError for null; strings that normalise alike get one result |
| Crypto.HexOrderInjective | packages/modules/src/content/Content.ts:125-127 | different digests are different numbers, so the numeric order of hashes is total |
| HashList.BuildNonceMap | packages/modules/src/content/Content.ts:129-134 | throws for the first statement without a nonce, else maps every digest to its nonce |
| HashList.HashAndPublish | packages/modules/src/content/Content.ts:123-135 | the sorted salted hashes and the nonce map, or the error |
| HashList.GeneratedNonces | packages/utils/src/Crypto.ts:327-344 | with a generator whose nonces are not empty, publishing succeeds: the list holds, for each statement, the hash of its nonce followed by its digest and nothing else, and the map has a nonce for each digest, that of a statement with this digest |
| HashList.GivenNonces | packages/utils/src/Crypto.ts:332-344 | the same with a map that has a nonce for each digest |
| HashList.OwnNonce | packages/modules/src/content/Content.ts:128-134 | where digests differ, each statement's own nonce is under its digest |
| HashList.LastNonceWins | packages/modules/src/content/Content.ts:128-134 | among statements with one digest, the last one's nonce is in the map |
| HashList.FirstMissingNonce | packages/modules/src/content/Content.ts:130-134 | the error names the first statement for which the generator gives, or the map has, no nonce |
| HashList.HashesAscend | packages/modules/src/content/Content.ts:125-127 | the hashes ascend, as texts and so as numbers |
| HashList.SaltSplits | packages/utils/src/Crypto.ts:300-302 | as digests have one width, a nonce followed by a digest splits in one way only |
| HashList.NonceMapEntry | packages/modules/src/content/Content.ts:128-134 | the digests in the nonce map are those of the statements, each with the nonce of such a statement |
| HashList.CollectObjections | packages/modules/src/content/Content.ts:169-189 | the error list in order, and `verified` if and only if it is empty |
| HashList.VerifyCauses | packages/modules/src/content/Content.ts:173-195 | which cause is given for which statement, in their order: no nonce for its digest, or a salted hash that is not on the list |
| HashList.VerifyStatements | packages/modules/src/content/Content.ts:162-195 | accepts if and only if each digest has a non-empty nonce and each salted hash is on the list; otherwise throws with every cause |
| HashList.AcceptedWasIssued | packages/modules/src/content/Content.ts:149-196 | with whatever nonces, an accepted statement is one of those published, unless hashed texts collide |
| HashList.IssuedAreAccepted | packages/modules/src/content/Content.ts:149-196 | published statements are accepted with any covering part of the nonce map, even if texts collide |
| HashList.PublishForgetsOrder | packages/modules/src/content/Content.ts:108-136 | under a given nonce map, permuted statements give the same list and the same map |
| HashList.PublishAgain | packages/modules/src/content/Content.ts:108-136 | hashing again with the returned nonce map reproduces list and map, if nonces came from a map or digests differ |
| Content.PutHeading | packages/modules/src/content/Content.ts:36-38 | issuer and holder, each if there is one, in this order |
| Content.PrefixEntries | packages/modules/src/content/Content.ts:55-58 | every key is prefixed, and no assignment overwrites another |
| Content.JsonLdContents | packages/modules/src/content/Content.ts:29-64 | the whole expanded form, a TypeError exactly on a null attribute, and the attributes as the call leaves them |
| Content.SchemaTexts | packages/modules/src/content/Content.ts:33-35 | how a schema id, or its absence, is rendered |
| Content.ContentLeft | packages/modules/src/content/Content.ts:48-63 | the call leaves each attribute as `sortObj` leaves its value, and everything else as it was |
| Content.MakeStatements | packages/modules/src/content/Content.ts:90-95 | one statement per member of the expanded form |
| Content.StatementsListed | packages/modules/src/content/Content.ts:36-38 | the statements begin with those of issuer and holder, where there is one, and one for each attribute follows |
| Content.PlainAttributeWritten | packages/modules/src/content/Content.ts:49-61 | the statement of an attribute that is no container: its value as it is, under its key behind schema id and `#` |
| Content.ObjectAttributeWritten | packages/modules/src/content/Content.ts:50-60 | the statement of an object: its sorted members, each key behind schema id and `#`, each value as sorted |
| Content.ArrayAttributeWritten | packages/modules/src/content/Content.ts:50-60 | the statement of an array: its sorted elements under their positions, behind schema id and `#` |
| Content.HashContents | packages/modules/src/content/Content.ts:108-136 | what is published for the statements of a content, or which error |
| Content.HashedWithGenerated | packages/modules/src/content/Content.ts:108-136 | without a null attribute and with generated nonces that are not empty, the content is published under these nonces |
| Content.HashedWithGiven | packages/modules/src/content/Content.ts:108-136 | or under the nonces of a map that has one for each digest |
| Content.NullAttributeThrows | packages/modules/src/content/Content.ts:48-56 | a null attribute ends hashing and verification in a TypeError |
| Content.VerifyDisclosedAttributes | packages/modules/src/content/Content.ts:149-196 | returns if and only if no attribute is null and every statement is covered by the proof; otherwise throws with every cause |
| Content.ExpandedKeysDiffer | packages/modules/src/content/Content.ts:33-62 | no two keys of the expanded form are equal: attribute keys never meet `@issuer` or `@holder` |
| Content.ExpandedNoIndex | packages/modules/src/content/Content.ts:33-62 | no key of the expanded form is an array index, so its members are enumerated in the order in which they were assigned |
| Content.StatementsDistinct | packages/modules/src/content/Content.ts:90-95 | no two statements of one content are the same text |
| StatementValues.MutationInvisible | packages/modules/src/content/Content.ts:48-63 | the arrays reordered by the first hashing give the same statements again |
| StatementValues.DisclosureFixesValue | packages/modules/src/content/Content.ts:50-60 | unless exactly one of them is an array, two values with the same statement are equal up to order; and values equal up to order make the same statement if keys stay distinct after lower-casing |
| StatementValues.FixesValueExactly | packages/modules/src/content/Content.ts:50-60 | for every JavaScript value: only values equal up to order make its statement if and only if it is neither an array nor an object whose keys are exactly the positions of an array and whose values are, by position, in the order of a sorted array |
| StatementValues.ArrayAlwaysPoses | packages/modules/src/content/Content.ts:50-60 | every array makes the statement of the object that has its sorted elements under their positions |
| StatementValues.ArrayPosesExactly | packages/modules/src/content/Content.ts:55-60 | an array and an object make the same statement if and only if the object's keys are the positions and its values, sorted, are those of the sorted array, position by position |
| StatementValues.EmptyArrayPosesAsObject | packages/modules/src/content/Content.ts:50-60 | the empty array and the empty object make the same statement and are not equal up to order |
| StatementValues.ArrayPosesAsObject | packages/modules/src/content/Content.ts:50-60 | so do an array of one element and the object with its position for a key |
| ContentParts.WithinIsPartOf | packages/modules/src/content/Content.ts:90-95 | under one schema, the statements of one content are among another's if and only if it discloses a part of it |
| Disclosure.DisclosureSound | packages/modules/src/content/Content.ts:149-196 | whatever nonces are given, only statements of the issued content are accepted; under its vocabulary, or any if it fixes its own, only parts of it, each value equal up to order to the issued one of the same key unless one is an array and the other an object |
| Disclosure.DisclosureComplete | packages/modules/src/content/Content.ts:149-196 | if the issued content was published, every part of it is verified without an exception by any covering part of the nonce map, collisions or not |
| Disclosure.DisclosureExactly | packages/modules/src/content/Content.ts:149-196 | with published nonces for its statements, verification of a content returns if and only if it is a part of the issued one under the same vocabulary |
| ContentParts.SelectionIsPart | packages/modules/src/content/Content.ts:48-63 | a selection of attributes, in any order, taken before or after the first hashing, is a part of the content in either state |
| ContentSchemas.FixesSchemaExactly | packages/modules/src/content/Content.ts:35-62 | all JavaScript contents that make statements of this one about attributes have its vocabulary if and only if no attribute reads otherwise: for no other `#` in its expanded key do the keys inside its value share that front and stay, without it, in the order in which they are enumerated |
| ContentSchemas.VocabularyNamesSchema | packages/modules/src/content/Content.ts:33-35 | contents with one vocabulary have one schema id, unless its text is that of an absent one, `undefined` or `null` |
| ContentSchemas.DisclosureFixesSchema | packages/modules/src/content/Content.ts:35-62 | no `#` in the schema id and the attribute keys of the issued content is enough for that, whatever is disclosed |
| ContentSchemas.FlatFixesSchema | packages/modules/src/content/Content.ts:35-62 | for contents without non-empty containers, that is so if and only if there is no attribute or no such `#` |
| ContentSchemas.KeysFixSchema | packages/modules/src/content/Content.ts:35-62 | no `#` in the keys of the issued and the disclosed content gives both one vocabulary too, whatever the schema ids hold |
| ContentSchemas.HashInKeyConfusesSchemas | packages/modules/src/content/Content.ts:35-62 | two contents under two schemas, one with a `#` in a key and one with a `#` in the schema id, that make the same statement |
| Disclosure.PublishedFromAttributeSet | packages/modules/src/content/Content.ts:108-136 | with a given nonce map, what `hashContents` returns does not depend on the order of the attributes |
| Disclosure.HashAgain | packages/modules/src/content/Content.ts:108-136 | `hashContents` on the content as the first call left it, with the nonce map it returned, returns the same again, if nonces came from a map or the digests of the statements do not collide |
| DidBatch.DetectThrows | packages/did/src/DidDetails/FullDidDetails.ts:43-53 | detection throws if and only if there is an empty batch at some depth |
| DidBatch.DetectIsCommon | packages/did/src/DidDetails/FullDidDetails.ts:38-61 | without empty batches, a relationship is found if and only if every leaf of `flattenCalls` maps to it |
| DidBatch.DetectNothing | packages/did/src/DidDetails/FullDidDetails.ts:49-52 | nothing is found if and only if two leaves differ or one has no relationship |
| DidBatch.FlattenAllMember | packages/modules/src/utils.ts:46-53 | the leaves of a batch are the leaves of its calls |
| DidBatch.FlattenedDepthFirst | packages/modules/src/utils.ts:36-53 | the documented example of nested batches flattens in the documented order |
| DidBatch.BatchCalls | packages/modules/src/utils.ts:29-34 | which calls are batches |
| DidBatch.LeafRelationships | packages/did/src/DidDetails/FullDidDetails.ts:22-61 | which key a call needs, by section and method, and by section where the method has no entry of its own |
| DidBatch.Relationships | packages/did/src/DidDetails/FullDidDetails.ts:147-155 | every call with the relationship it was found to have, or the error of the first call that has none: a TypeError for an empty batch, else the batch error |
| DidBatch.AddExtrinsic | packages/did/src/DidDetails/FullDidDetails.ts:164-175 | one turn: the call joins the last group or opens a new one; other groups stay as they are |
| DidBatch.GroupByKeyRelationship | packages/did/src/DidDetails/FullDidDetails.ts:144-178 | all groups, or the error of the first call that has no relationship; a TypeError for no calls |
| DidBatch.GroupsSplit | packages/did/src/DidDetails/FullDidDetails.ts:144-178 | the groups are non-empty, concatenate to the input in order, and each call lies in a group of its own relationship |
| DidBatch.NeighboursDiffer | packages/did/src/DidDetails/FullDidDetails.ts:166-174 | adjacent groups have different relationships |
| DidBatch.GroupsMinimal | packages/did/src/DidDetails/FullDidDetails.ts:144-178 | no split into non-empty single-relationship groups, in order, has fewer groups |
| DidAuthorize.SignGroups | packages/did/src/DidDetails/FullDidDetails.ts:222-237 | one operation per group, counted from the first nonce |
| DidAuthorize.AuthorizeBatch | packages/did/src/DidDetails/FullDidDetails.ts:192-241 | which operations are submitted, alone or in a batch, or which error is thrown |
| DidAuthorize.CallsCarried | packages/did/src/DidDetails/FullDidDetails.ts:222-237 | the operations carry the calls in order and all of them, in parts: a part of one call as it is, any other as one batch of the function that was given; each under the relationship that every call of the part has, for the given DID and submitter |
| DidAuthorize.GivenNonceSigned | packages/did/src/DidDetails/FullDidDetails.ts:134-225 | a nonce that is given is signed first, and the next ones count on from it |
| DidAuthorize.ChainNonceSigned | packages/did/src/DidDetails/FullDidDetails.ts:93-100 | with none given, the first is the one after the counter on chain, or 1 for an unknown DID |
| DidAuthorize.RefusedExactly | packages/did/src/DidDetails/FullDidDetails.ts:124-155 | when a list of calls is refused, and with which error |
| DidAuthorize.RunConsecutive | packages/augment-api/src/interfaces/augment-api-errors.ts:259-262 | the chain takes all operations if and only if the counters are consecutive u64 values after the last one, and ends that much further |
| DidAuthorize.RunAcceptedExactly | packages/did/src/DidDetails/FullDidDetails.ts:219-238 | from any first nonce, a run over several calls is taken in full if and only if that nonce is next, is not the maximum, and the last counter fits |
| DidAuthorize.GivenNonceAccepted | packages/did/src/DidDetails/FullDidDetails.ts:134-225 | a run from a given nonce is taken in full if and only if the nonce is next and the counters fit the u64; over several calls it must not be the maximum |
| DidAuthorize.BatchRunAccepted | packages/did/src/DidDetails/FullDidDetails.ts:78-100 | with the nonce left out, a run over several calls is taken in full if and only if the bounds hold |
| DidAuthorize.SingleRunAccepted | packages/did/src/DidDetails/FullDidDetails.ts:213-217 | a single call is taken if and only if the counter on chain is not the maximum |
| DidAuthorize.NoReplay | packages/augment-api/src/interfaces/augment-api-errors.ts:259-262 | after a run, no operation of it is taken again, then or from any later counter |
| DidAuthorize.ExecutesWhatWasAsked | packages/did/src/DidDetails/FullDidDetails.ts:219-240 | flattening the calls of the operations in order gives the flattened input |
| DidAuthorize.SignedAsRequired | packages/did/src/DidDetails/FullDidDetails.ts:222-237 | detection on the call actually signed, alone or batched, gives the relationship it is signed under |
| Identifier.PackUnpack | packages/utils/src/Identifier.ts:35-41 | for every 14-bit prefix, unpacking what was packed gives the prefix and its width, whatever follows |
| Identifier.PrefixLayout | packages/utils/src/Identifier.ts:83-91 | the prefix in one byte, or in two with the layout of the SS58 specification, in plain arithmetic |
| Identifier.EncodedLayout | packages/utils/src/Identifier.ts:62-99 | which prefixes and lengths are accepted, and the text: prefix, payload, and the first one or two bytes of the hash of tag, prefix and payload |
| Identifier.TagTexts | demo/src/identifier.ts:21-25 | the tags are the bytes of their texts |
| Identifier.EncodedChecks | packages/utils/src/Identifier.ts:32-60 | what is encoded has a valid checksum and shows its prefix, for every allowed prefix and length |
| Identifier.RoundTrip | demo/src/identifier.ts:94-126 | decoding what was encoded gives the payload if the prefix is below 64 or the length is 1, 32 or 33, and throws otherwise |
| Identifier.EncodeInjective | packages/utils/src/Identifier.ts:62-99 | no two pairs of prefix and payload share an identifier |
| Identifier.AcrossTags | demo/src/identifier.ts:94-126 | decoding under another tag than that of the encoder gives the payload if and only if the length fits the prefix and the checksums agree, and throws otherwise |
| Identifier.AcrossPackages | demo/src/identifier.ts:21-25 | so the demo's decoder reads an identifier of the SDK only if the checksums under the two tags agree |
| Identifier.DecodeThenEncode | demo/src/identifier.ts:94-126 | a decoded payload encodes to the same text under some prefix if and only if the text is base58 and not hexadecimal, its prefix was packed minimally, and the payload has an allowed length with its checksum width |
| Identifier.DecodesExactly | demo/src/identifier.ts:94-126 | base58 text decodes to a payload if and only if its bytes have an allowed length, an allowed first byte, and end with the checksum of what precedes; the payload is what lies between prefix and checksum |
| Identifier.DecodeOptions | demo/src/identifier.ts:113-122 | what an expected prefix adds, and what ignoring the checksum leaves out |
| Identifier.OtherTexts | demo/src/identifier.ts:99-108 | empty text and text that is no base58 are refused, hexadecimal text is passed through as bytes |
| IdentifierUri.StripExactly | packages/utils/src/Identifier.ts:120-137 | stripping gives back what was behind a prefix if and only if the prefix does not occur there again |
| IdentifierUri.UriRoundTrip | packages/utils/src/Identifier.ts:101-137 | stripping the URI of an identifier gives that identifier, for each of the prefixes |
| IdentifierUri.PrefixesStripped | packages/utils/src/Identifier.ts:120-137 | each of the six prefixes is stripped |
| IdentifierUri.UnknownPrefixThrows | packages/utils/src/Identifier.ts:120-137 | a text without one of them is refused |
| IdentifierUri.AccountRoundTrip | packages/utils/src/Identifier.ts:180-201 | the address comes back from its account identifier if and only if it does not hold the prefix itself |
| IdentifierUri.AccountIdentifierOnce | packages/utils/src/Identifier.ts:180-186 | the prefix is put in front once, and not again |
| Balance.NumberTextExactly | packages/modules/src/balance/Balance.utils.ts:74 | the accepted texts are exactly an optional minus, digits, and digits after a dot, of which one kind may be missing |
| Balance.ConvertToTxUnit | packages/modules/src/balance/Balance.utils.ts:57-59 | the amount with 12 + power zeros behind it |
| Balance.ExactValue | packages/modules/src/balance/Balance.utils.ts:97-126 | for every number text: all digits as one number times the power of ten left, signed; an error if and only if there are more decimals than the unit has |
| Balance.ToPicoWayExact | packages/modules/src/balance/Balance.utils.ts:97-126 | the same for every text and every unit name, with the errors for bad texts and unknown units |
| Balance.SmallUnits | packages/modules/src/balance/Balance.utils.ts:10-16 | one pico to centi in picoWAY |
| Balance.MiddleUnits | packages/modules/src/balance/Balance.utils.ts:16-19 | one WAY to mega in picoWAY |
| Balance.LargeUnits | packages/modules/src/balance/Balance.utils.ts:20-27 | one giga to yotta in picoWAY, and their synonyms |
| Balance.UnknownUnit | packages/modules/src/balance/Balance.utils.ts:103-105 | there are no other units |
| Balance.ExactAsReal | packages/modules/src/balance/Balance.utils.ts:97-126 | as a real number, the result is the denoted amount times the unit: nothing is rounded |
| Balance.TrailingZeros | packages/modules/src/balance/Balance.utils.ts:113-123 | zeros at the end of the fraction do not matter while they fit |
| Balance.MovePoint | packages/modules/src/balance/Balance.utils.ts:113-125 | moving the point right while the unit gets smaller changes nothing, errors included |
| Balance.IntegerExact | packages/modules/src/balance/Balance.utils.ts:79-85 | an integer input is multiplied by the unit, whatever its sign |
| DidUri.ParseOf | packages/did/src/Did.utils.ts:39-58 | every DID, alone or with a legal fragment, parses into its parts |
| DidUri.ParsePrint | packages/did/src/Did.utils.ts:20-58 | whatever is accepted is its DID followed by its fragment; the DID alone parses to the same DID |
| DidUri.ParseExactly | packages/did/src/Did.utils.ts:20-58 | the accepted texts are exactly the DIDs with 48 characters of address, the first a 3 and the rest letters and digits without 0, O, I and l, with a legal fragment or none |
| DidUri.SameSubjectSameDid | packages/did/src/Did.utils.ts:67-69 | two URIs have one subject if and only if they have the same DID in front |
| DidUri.KeyRoundTrip | packages/did/src/DidResolver/DidResolver.ts:137-162 | a key comes back from its resolved form if and only if its id is a legal fragment |
| DidKeys.DocumentFromChain | packages/did/src/Did.rpc.ts:52-97 | the document of the chain's record, filled step by step |
| DidKeys.KeyRecordIs | packages/did/src/Did.rpc.ts:62-69 | the folded record has exactly the ids of the public keys, each with its own entry |
| DidKeys.KeysUnderAre | packages/did/src/Did.rpc.ts:71-94 | if every listed id has an entry, a relation of the document holds exactly the entries of the ids listed under it |
| DidKeys.ResolutionAgreesWithChain | packages/did/src/DidResolver/DidResolver.ts:171-217 | resolving `did#id` succeeds if and only if the chain lists the id as asked, and returns the stored bytes and type under the DID |
| DidKeys.ResolutionFails | packages/did/src/DidResolver/DidResolver.ts:175-199 | which error a bad URI, a missing fragment and an unknown DID give |
| DidKeys.KeyNotResolved | packages/did/src/DidResolver/DidResolver.ts:201-214 | which error a key gives that is not listed as asked: not found at all, or found under other relations only |
| DidKeys.AgreesExactly | packages/did/src/DidResolver/DidResolver.ts:171-217 | for listed ids that are legal fragments: resolution succeeds for exactly what the chain lists, for every id and however asked, if and only if every listed id has an entry among the public keys |
| DidKeys.DanglingAuthenticationBreaks | packages/did/src/DidDetails/DidDetails.ts:31-36 | without an entry for the authentication key every resolution throws |
| DidExport.DeduplicateIs | packages/did/src/DidDocumentExporter/DidDocumentExporter.ts:45-49 | the filter keeps, for each id, the first method that has it, and nothing else |
| DidExport.ExportAgreesWithLookup | packages/did/src/DidDocumentExporter/DidDocumentExporter.ts:27-49 | exported ids are distinct; an id is exported if and only if lookup finds it, with the key that lookup finds |
| DidExport.ExportedMaterial | packages/did/src/DidDocumentExporter/DidDocumentExporter.ts:27-44 | a listed id is exported with the DID as controller, the stored bytes in base58, and the type's name from the table for signing keys or that for encryption keys |
| DidExport.TypeNames | packages/types/src/DidDocumentExporter.ts:18-34 | the two tables |
| DidExport.ExportOrder | packages/did/src/DidDocumentExporter/DidDocumentExporter.ts:27-49 | the exported ids come in the order in which the chain's relations first name them |
| DidExport.ReferencesAreExported | packages/did/src/DidDocumentExporter/DidDocumentExporter.ts:51-63 | every reference under a relationship names an exported method |
| DidExport.ReferencesAreTheChains | packages/did/src/DidDocumentExporter/DidDocumentExporter.ts:51-63 | each relationship of the export references the id that the chain has under that relationship, for key agreement the first; it is absent if and only if the chain has none |
| DidExport.AgreementReferences | packages/did/src/DidDocumentExporter/DidDocumentExporter.ts:61-63 | with distinct ids, all key agreement keys are referenced if and only if there is just one |
| DidExport.ExportAgreesWithChain | packages/did/src/Did.rpc.ts:52-97 | an id is exported if and only if the chain lists it under some relation |

## Left out

- SortObj: the option `noArray`, which no caller sets, and the text interface around it (`sort`, `cleanJSON`).
- SortObj: in `JsonHeap`, the part of the heap it works on is given with a level for each array and object, above the levels of its contents; such levels exist if and only if none contains itself. For arguments that contain themselves, on which the code does not come to a result, nothing is stated.
- JsonLdContents: `Content` treats attributes as values and returns what the call leaves of them, where the code sorts the arrays in place; the in-place sort itself is in `JsonHeap`.
- Json: the key `__proto__`, whose assignment adds no member; NaN and undefined; the text of numbers, which is an opaque token. Strings are compared and escaped by code point, so surrogates and characters beyond the Basic Multilingual Plane are not covered.
- EncodeDecides: which texts `normalize('NFC')` merges is left open; `hashObjectAsHexStr` adds only the hash.
- HashContents: canonicalisation and hashers other than the default ones; nonce maps that inherit properties.
- JsonLdContents: the compact form (`expanded = false`), `toJsonLD`, and the checks of a content against its schema.
- Detect: section names that are properties of JavaScript's Object.prototype.
- AuthorizeBatch: signing callbacks, SCALE encoding, block numbers, submission; of the chain only the counter rule.
- Identifier: base58, blake2 and hexadecimal themselves; byte-array and hexadecimal input to the encoder; prefixes that are fractional or negative; `checkIdentifier`, whose chain of inequalities holds for every prefix, and `validateId`.
- ToPicoWay: JavaScript numbers that print in exponent form; `fromPicoWay` and `formatWayBalance`, which print through the engine.
- ExactValue: stated, like the other amount laws, for the exponent of a unit; `ToPicoWayExact` carries it to unit names.
- DocumentFromChain: services, DID names, and the counter in the record; `Did.chain.ts` has a second copy of the function.
- ResolveKey: the metadata and version check of `resolve`; as in the code, deactivated and unknown DIDs give one error.
- ExportToJson: services and the JSON-LD context.
- Real blake2, encryption, key derivation, messages, configuration and error classes are not part of this model.
