# Stacks Pay request codec, modelled in Dafny

Stacks Pay is a payment-request format. A request is a flat record of string
properties: `operation`, `recipient`, `token`, `amount`, `description`, `memo`,
`expiresAt`, `dueDate`, `invoiceNumber`, `contractName` and `functionName`.
It travels as a URL:

    web+stx:<bech32m under the prefix "stx" of  operation?name=value&name=value...>

This project models the codec at the heart of the library:

- the operation schema registry, which gives `support`, `invoice` and `mint` their
  `required`, `optional` and `ignore` lists;
- `validateParameters`, which checks a request against its schema and deletes ignored
  properties from the caller's object in place;
- `encodeStacksPayURL` and `decodeStacksPayURL`;
- the field predicates `isValidAmount` and `isValidToken`, and the bech32m wrappers with
  their prefix check.

The files, in dependency order:

| file | module | contents |
|---|---|---|
| types.dfy | `Types` | `Option`, `Result`, `Outcome`, and one `Error` constructor per message the code throws |
| strings.dfy | `Strings` | `indexOf`, `split` on a character, `startsWith` and `replace` of the first occurrence |
| records.dfy | `Records` | the request as an ordered sequence of `(name, value)` pairs (JavaScript keeps insertion order); lookup, property assignment (`{ ...a, ...b }`), `delete`; the class `Params` whose `Delete` edits the record in place |
| formencoding.dfy | `FormEncoding` | a stand-in for `URLSearchParams`: an escape with its inverse, the serializer and the parser, and the accumulator class `SearchParams` |
| utils.dfy | `Utils` | the external collaborators as function fields of `Externals`; `isValidAmount` as a finite automaton proved equal to its regular expression; `isValidToken`; the bech32m wrappers |
| registry.dfy | `Registry` | `operationParameters`, including what a lookup of an `Object.prototype` name yields |
| validation.dfy | `Validation` | `validateParameters`, first as functions, then as imperative methods over `Params` proved equal to them |
| codec.dfy | `Codec` | `Encode` and `Decode` as functions, and the two entry points as methods proved equal to them |
| roundtrip.dfy | `RoundTrip` | what decoding makes of an encoded request: the protocol guard, the round trip for registry and `custom-` operations, and the case where the round trip breaks |

The functions `Validate`, `Encode` and `Decode` are the specification. The methods
`ValidateParameters`, `EncodeStacksPayUrl` and `DecodeStacksPayUrl` follow the source
loop by loop, and each `ensures` says that the method computes what its function
computes. This covers both the result and the new contents of the caller's record.

The external libraries are function-typed parameters. These are the c32check address
decoder, the JavaScript `Date` parser and the `bech32` package. The round-trip lemmas
assume `Lawful(ext)`: whatever the bech32m encoder produces under the prefix `stx`, the
decoder turns back into the prefix `stx` and the same text. Nothing is assumed about
other prefixes. The prefix check is stated over the prefix the decoder reports, as
src/utils.ts:32-34 does it.

Where the code and its informal description disagree, the model follows the code:

- A required property whose value is `""` passes the required check (src/index.ts:65-68).
  The property walk then skips it (src/index.ts:78). The encoder leaves it out of the URL
  (src/index.ts:153), so decoding the encoder's own output fails with the
  missing-parameter error. `RoundTrip.EmptyRequiredBreaksRoundTrip` proves this.
- An operation name inherited from `Object.prototype` finds a truthy value with no lists
  (`toString`, `constructor`, `__proto__` and the other prototype names). Iterating the
  missing `required` list then throws a `TypeError`, which is `Error.NotIterable` here.
  Such a name does not produce the "Unknown operation type" error.
- An ignored property whose value is `""` is not deleted (src/index.ts:78-82).
- For a registry operation, `operation` is itself a required name (src/index.ts:140-143),
  so it is written into the query string as well as in front of the `?`.

## Model

| member | source | states |
|---|---|---|
| Strings.IndexOf | src/index.ts:184 | the result is absent exactly when the character does not occur; otherwise it is the position of the first occurrence |
| Strings.StartsWith | src/index.ts:56 | `startsWith`: the prefix test behind the `custom-` check and the protocol guard (src/index.ts:173); `RoundTrip.ProtocolGuard` and `Registry.CustomIsAbsent` state what it decides |
| Strings.ReplaceFirst | src/index.ts:177-180 | `replace(pattern, replacement)`, first occurrence only; its contract is `ReplacePrefix` |
| Strings.Find | src/index.ts:177-180 | the position found is the first at which the pattern starts; absent means the pattern occurs nowhere |
| Strings.ReplacePrefix | src/index.ts:177-180 | replacing the scheme with `""` in a URL that starts with it leaves exactly the text after the scheme |
| Strings.Split | src/utils.ts:8 | `split(".")` gives at least one part, no part contains the separator, and joining the parts gives the input back |
| Strings.SplitCount | src/utils.ts:8-9 | the number of parts is the number of separators plus one |
| Strings.SplitJoin | src/utils.ts:8-10 | splitting parts joined by a separator they do not contain gives the parts back |
| Strings.IndexOfAfter | src/index.ts:184-191 | in `head + "?" + tail` with no `?` in `head`, the first `?` is at `\|head\|` |
| Records.Get | src/index.ts:77 | `params[key]` (also `Records.Params.Value` on the mutable object) is absent exactly when no property has the name; when found, the value is the value of a property with that name |
| Records.GetAt | src/index.ts:76-77 | with distinct names, looking up the i-th property's name finds the i-th value |
| Records.KeysOfNames | src/index.ts:146 | `Object.keys` (`KeysOf`) lists a name exactly when the record holds it, and never lists a name twice |
| Records.SetKey | src/index.ts:202 | one property assignment; its contracts are `SetKeyLookups` and `SetKeyInPlace` |
| Records.SetKeyLookups | src/index.ts:199-202 | assigning a property keeps names distinct, sets that name, leaves every other name alone, and appends a new name at the end |
| Records.SetKeyInPlace | src/index.ts:202 | re-assigning an existing name keeps its position and changes only its value |
| Records.SetAll | src/index.ts:199-202 | assigning a sequence of pairs keeps the record's names distinct |
| Records.SetAllGet | src/index.ts:199-202 | after the assignments a name has its last assigned value, or its old value when it was not assigned |
| Records.SetAllFresh | src/index.ts:199-202 | assigning pairs whose names are all new appends them in order |
| Records.Remove | src/index.ts:82 | `delete` leaves the name absent, every other name unchanged, and only properties of the input |
| Records.RemoveAt | src/index.ts:82 | deleting the i-th property's name removes exactly that position |
| Records.RemoveAbsent | src/index.ts:208 | deleting an absent name changes nothing |
| Records.RemoveAll | src/index.ts:207-209 | after deleting a list of names, each of them is absent and every other name is unchanged |
| Records.RemoveAllAbsent | src/index.ts:207-209 | deleting names the record does not hold changes nothing |
| Records.DropEmpty | src/index.ts:151-156 | the properties kept are those with a non-empty value, and a lookup finds the value exactly when it is not empty |
| Records.StripIgnored | src/index.ts:76-82 | the record without its ignored non-empty properties; its contracts are `StripIgnoredLookups` and `StripIgnoredKeepsAll` |
| Records.StripIgnoredLookups | src/index.ts:76-82 | removing ignored names keeps every other name's value and leaves only properties of the input; an ignored name survives only with an empty value |
| Records.StripIgnoredKeepsAll | src/index.ts:76-82 | a record with no ignored name is not changed |
| Records.ToMap | tests/index.test.ts:25 | the dictionary holds exactly the record's names, each with the value the record gives it (`toEqual` ignores order) |
| Records.SameLookupsSameMap | tests/index.test.ts:25 | two records that agree on every lookup are equal as dictionaries |
| Records.Params.constructor | src/index.ts:202 | the object holds the given properties |
| Records.Params.Delete | src/index.ts:82 | `delete params[key]` replaces the contents with the record without that name and keeps names distinct |
| FormEncoding.Escape | src/index.ts:154 | escaped names and values contain no `&`, `=` or `?` |
| FormEncoding.UnescapeEscape | src/index.ts:154-197 | unescaping undoes escaping |
| FormEncoding.EncodePair | src/index.ts:154 | a serialized pair is non-empty and has no `&` |
| FormEncoding.DecodeEncodePair | src/index.ts:154-197 | parsing a serialized pair gives the pair back |
| FormEncoding.ParsePiecesEncoded | src/index.ts:197-199 | parsing the pieces of serialized pairs gives the pairs in order |
| FormEncoding.Serialize | src/index.ts:158 | `URLSearchParams.toString()` (also `FormEncoding.SearchParams.ToString` on the accumulator); `ParseSerialize` states its inverse |
| FormEncoding.Parse | src/index.ts:197 | `new URLSearchParams(query)`, dropping a leading `?` and empty pieces; `ParseSerialize` states that it inverts `Serialize` |
| FormEncoding.ParseSerialize | src/index.ts:158-199 | parsing the query the encoder serialized gives back its pairs in order, duplicates included |
| FormEncoding.SearchParams.constructor | src/index.ts:135 | a new accumulator is empty |
| FormEncoding.SearchParams.Append | src/index.ts:154 | `append` adds the pair at the end |
| Utils.Bech32mRoundTrip | src/utils.ts:24-37 | decoding what `bech32mEncode` produced gives the text back |
| Utils.Bech32mEncode | src/utils.ts:24-27 | `bech32mEncode` always encodes under the prefix `stx`; a library failure is `Bech32Failure`; its contract is `Bech32mRoundTrip` |
| Utils.Bech32mDecode | src/utils.ts:29-37 | `bech32mDecode`; its contract is `Bech32mPrefixCheck` |
| Utils.Bech32mPrefixCheck | src/utils.ts:29-37 | decoding succeeds exactly when the library decodes the string and reports the prefix `stx`, and then gives the library's text; any other reported prefix is refused with the invalid-HRP error; a library failure propagates |
| Utils.IsValidAmount | src/utils.ts:14-16 | `isValidAmount` as an automaton over the characters; its contract is `AmountMatchesPattern` |
| Utils.AmountMatchesPattern | src/utils.ts:14-16 | the automaton accepts exactly the strings of `^[0-9]+(\.[0-9]+)?$` |
| Utils.AmountShape | src/utils.ts:15 | a valid amount is non-empty, has at most one `.`, and does not start or end with `.` |
| Utils.AmountExamples | src/utils.ts:14-16 | `1000`, `1000.5` and `500` are valid; `""`, `-1`, `1e5`, `1.` and `.5` are not |
| Utils.IsValidToken | src/utils.ts:6-12 | `isValidToken`; its contract is `TokenCharacterization` |
| Utils.TokenCharacterization | src/utils.ts:6-12 | a token is valid exactly when it is `STX`, or it has one `.` with a Stacks address before it and a non-empty name after it |
| Utils.TokenNeedsOneDot | src/utils.ts:8-9 | apart from `STX`, a token with no `.` or several is refused whatever the address check says |
| Utils.TokenAcceptsContract | src/utils.ts:10-11 | `address.contract` with a non-empty contract name is valid exactly when the address is |
| Utils.TokenExamples | src/utils.ts:7 | `STX` is accepted without the address check; `stx` is refused, because the match is case-sensitive |
| Registry.SupportWellFormed | src/index.ts:21-31 | the support lists repeat no name, share none, and start with `operation` |
| Registry.InvoiceWellFormed | src/index.ts:32-36 | the same for invoice |
| Registry.MintWellFormed | src/index.ts:37-47 | the same for mint |
| Registry.Schema.Allowed | src/index.ts:83 | `[...required, ...optional]`, the allow-list of the walk and the encoder's name order (src/index.ts:140-143); `Registry.Disjoint` states that it never holds an ignored name and never repeats a name |
| Registry.Lookup | src/index.ts:53 | a lookup finds a schema exactly for `support`, `invoice` and `mint`, and an inherited value exactly for the `Object.prototype` names |
| Registry.LookupWellFormed | src/index.ts:20-48 | every schema in the registry is well formed |
| Registry.Disjoint | src/index.ts:80-83 | in a well-formed schema an ignored name is never allowed, a required name is not also optional, and the allowed names do not repeat |
| Registry.IsCustom | src/index.ts:56 | `startsWith("custom-")`; `CustomIsAbsent` and `Validation.OperationDispatch` state what it decides |
| Registry.CustomIsAbsent | src/index.ts:53-56 | a `custom-` name is neither a registry operation nor an inherited name |
| Validation.CheckField | src/index.ts:89-122 | only the seven checked fields can fail, and the mint name checks never fail on a non-empty value |
| Validation.EntryOutcome | src/index.ts:77-123 | a property fails only if its value is non-empty and its name is not ignored, and then only with not-allowed or a field error |
| Validation.FirstMissing | src/index.ts:64-73 | the result is absent exactly when every required name is present; otherwise it is the first required name that is absent |
| Validation.Sanitize | src/index.ts:76-124 | the property walk, step by step; its contracts are `SanitizeReference` and `SanitizeFrame` |
| Validation.FirstRejected | src/index.ts:76-124 | the result is absent exactly when every property passes on its own; otherwise it is the position of a property that fails |
| Validation.SanitizeReference | src/index.ts:76-124 | the property walk equals the reference: the first refused property decides, the ignored names before it are deleted, and the rest is untouched |
| Validation.SanitizeFrame | src/index.ts:76-124 | the walk keeps names distinct and never changes a name that is not ignored |
| Validation.Validate | src/index.ts:51-125 | validation keeps names distinct and never changes `operation` |
| Validation.KnownValidate | src/index.ts:53-64 | unfolding step: a registry operation is validated against its own schema |
| Validation.SchemaErrors | src/index.ts:64-124 | a schema fails only with missing-parameter, not-allowed or a field error |
| Validation.OperationDispatch | src/index.ts:52-61 | unknown-operation is raised exactly for names that are not registered, not inherited and not `custom-`; not-iterable exactly for inherited names; a `custom-` record passes unchanged |
| Validation.MissingParameterExactly | src/index.ts:64-73 | missing-parameter is raised exactly when a required name is absent; it names the first one and leaves the record untouched |
| Validation.ValidateSchema | src/index.ts:64-124 | the required check followed by the walk; its contracts are `MissingParameterExactly`, `AcceptedExactly` and `RejectedAt` |
| Validation.AcceptedExactly | src/index.ts:64-124 | a schema accepts exactly when every required name is present and no property fails on its own; the result is the record without its ignored properties |
| Validation.RejectedAt | src/index.ts:76-124 | the first failing property decides the error; the ignored properties before it are already deleted and the rest is as it was |
| Validation.AcceptedRecordIsClean | src/index.ts:64-124 | after acceptance every required name is present, every non-empty property is allowed, and every name that is not ignored keeps its value |
| Validation.NameChecksUnreachable | src/index.ts:78-120 | validation never fails with the contract-name or function-name errors |
| Validation.SingleFieldDecides | src/index.ts:76-124 | when everything else passes, the one remaining property alone decides the outcome |
| Validation.RecipientRule | src/index.ts:90-94 | a non-empty recipient fails exactly when the address check refuses it |
| Validation.FieldRules | src/index.ts:95-110 | a non-empty allowed `token` fails exactly when `isValidToken` is false, `amount` exactly when `isValidAmount` is false, and `expiresAt`/`dueDate` exactly when the date check is false, each with its own error |
| Validation.FreeTextRule | src/index.ts:83-122 | `description`, `memo`, `invoiceNumber` and `operation` are never refused when allowed |
| Validation.InvoiceRefusesContractAddress | src/index.ts:83-86 | a non-empty `contractAddress` on an invoice fails as not allowed |
| Validation.InvalidRecipientInvoice | tests/index.test.ts:85-97 | the schema check fails the test's invoice, whose address is refused, with the recipient error |
| Validation.CheckRequired | src/index.ts:64-73 | the `required` loop returns the first absent required name |
| Validation.SanitizeParams | src/index.ts:76-124 | the `for...in` loop with its in-place deletes leaves the outcome and the record that the walk specifies |
| Validation.ValidateParameters | src/index.ts:51-125 | the method's outcome and the caller's edited record are those of `Validate` |
| Codec.PairOf | src/index.ts:152-155 | one step of the append loop; its contract is `QueryPairsGet` |
| Codec.QueryPairs | src/index.ts:151-156 | the pairs the append loop produces; its contracts are `QueryPairsFrom`, `QueryPairsDistinct` and `QueryPairsGet` |
| Codec.QueryPairsFrom | src/index.ts:151-156 | every appended pair is an allowed name with its non-empty value from the record |
| Codec.QueryPairsDistinct | src/index.ts:151-156 | over names without repeats, the pairs have distinct names |
| Codec.QueryPairsGet | src/index.ts:151-156 | a name is in the query exactly when it is allowed and its value is present and non-empty |
| Codec.Omit | src/index.ts:146 | the filter keeps exactly the names other than `operation` |
| Codec.AllowedKeys | src/index.ts:137-149 | `allowedParams`; `RoundTrip.EncoderKeysAvailable`, `RoundTrip.EncodeKnown` and `RoundTrip.CustomPairs` state what it yields |
| Codec.Payload | src/index.ts:158 | the text `${operation}?${query}`; `RoundTrip.DecodeEnvelope` is its inverse |
| Codec.BuildUrl | src/index.ts:158-163 | every URL built starts with `web+stx:` |
| Codec.Encode | src/index.ts:128-168 | encoding succeeds only after validation passes; the URL starts with `web+stx:`; the caller's record is left as validation leaves it |
| Codec.DecodedRecord | src/index.ts:199-202 | the rebuilt record has distinct names and always holds `operation` |
| Codec.SplitUrl | src/index.ts:184-195 | the operation holds no `?`; with a `?` in the text, the text is the operation, `?` and the query; without one, the query is empty |
| Codec.DecodeRequest | src/index.ts:184-215 | a decoded record has distinct names and holds `operation` |
| Codec.Decode | src/index.ts:171-220 | the same for the whole decoder |
| Codec.BuildQuery | src/index.ts:151-156 | the loop's accumulator holds the pairs of the allowed names with present, non-empty values, in order |
| Codec.EncodeStacksPayUrl | src/index.ts:128-168 | the method returns what `Encode` returns and leaves the caller's record as `Encode` says |
| Codec.DeleteIgnored | src/index.ts:205-210 | the delete loop removes exactly the ignored names |
| Codec.DecodeParams | src/index.ts:197-215 | the rest of the decoder, over a fresh parameter object, returns what `DecodeRequest` returns |
| Codec.DecodeStacksPayUrl | src/index.ts:171-220 | the method returns what `Decode` returns |
| RoundTrip.DecodeEnvelope | src/index.ts:158-195 | unwrapping `web+stx:` + bech32m of `op?query`, with no `?` in `op`, gives back `op` and `query` |
| RoundTrip.EncodeRefusesInvalidRecipient | tests/index.test.ts:85-97 | encoding the test's invoice, whose address is refused, fails with the recipient error |
| RoundTrip.ProtocolGuard | src/index.ts:173-175 | a URL without the `web+stx:` scheme is refused with the invalid-protocol error |
| RoundTrip.ForeignSchemes | tests/index.test.ts:113-129 | `invalid+stx:` and `web+btc:` URLs are refused with the invalid-protocol error, whatever follows |
| RoundTrip.MarkInOperation | src/index.ts:184-191 | an operation containing `?` is cut short by the split, so it is not recovered |
| RoundTrip.QueryOperationOverrides | src/index.ts:199-202 | a query `operation` (the last one, if repeated) overrides the path operation |
| RoundTrip.KnownNames | src/index.ts:20-48 | registry operation names are non-empty and contain no `?` |
| RoundTrip.EncoderKeysAvailable | src/index.ts:139-149 | after validation passes, the encoder's own unknown-operation branch is unreachable |
| RoundTrip.EncodeOk | src/index.ts:128-163 | unfolding step: a successful encoding is the envelope built from the validated record |
| RoundTrip.BuildUrlOk | src/index.ts:137-163 | unfolding step: a built URL is `web+stx:` followed by the bech32m of the operation, `?` and the pairs of the allowed names |
| RoundTrip.EncodeKnown | src/index.ts:139-163 | for a registry operation those names are the schema's required and optional names |
| RoundTrip.KnownPairs | src/index.ts:139-156 | the encoded pairs have distinct names, start with `operation=<op>`, contain no ignored name, and carry each other non-empty value of the request |
| RoundTrip.DecodedRecordOfPairs | src/index.ts:197-202 | rebuilding from serialized pairs that start with the path operation gives exactly those pairs |
| RoundTrip.DecodeRequestKnown | src/index.ts:205-215 | unfolding step: for a registry operation the decoder deletes the ignored names of the path operation, then validates and returns the validated record (`Finish`) |
| RoundTrip.DecodeKnownEncoding | src/index.ts:128-215 | decoding an encoded registry request comes down to validating its pairs again |
| RoundTrip.RevalidatePairs | src/index.ts:51-125 | the pairs left from an accepted record, with every required value non-empty, pass the same schema unchanged |
| RoundTrip.KnownPairsAccepted | src/index.ts:213 | the second validation, in the decoder, passes and changes nothing |
| RoundTrip.KnownRoundTrip | src/index.ts:128-220 | when encoding succeeds and no required value is empty, decoding returns the encoded pairs; each name has the request's value unless the name is ignored or the value is empty |
| RoundTrip.KnownRoundTripIgnored | tests/index.test.ts:60-83 | a request with no empty value decodes to the request without its ignored names, as a dictionary |
| RoundTrip.KnownRoundTripEqual | tests/index.test.ts:12-58 | a request with no empty value and no ignored name decodes to itself, as a dictionary |
| RoundTrip.EmptyRequiredBreaksRoundTrip | src/index.ts:64-78 | an empty required value lets encoding succeed, but decoding its output fails with missing-parameter |
| RoundTrip.CustomPairs | src/index.ts:144-156 | a `custom-` request's pairs are its own properties in order, without `operation` and without empty values |
| RoundTrip.CustomEncoding | src/index.ts:144-163 | a `custom-` request is encoded as the envelope of those pairs |
| RoundTrip.CustomDecodedRecord | src/index.ts:197-202 | rebuilding from pairs without `operation` puts the path operation first, then the pairs |
| RoundTrip.CustomDecodeRequest | src/index.ts:205-215 | a rebuilt `custom-` record is returned as it is |
| RoundTrip.CustomRoundTrip | tests/index.test.ts:99-111 | a `custom-` request with no `?` in its name decodes to `operation` followed by its other non-empty properties in order, which equals the request without its empty values as a dictionary |
| RoundTrip.CustomRecordMap | tests/index.test.ts:110 | as a dictionary, the decoded `custom-` record is the request without its empty values |

## Left out

- The address check (`c32addressDecode`, src/utils.ts:40-47) is the external predicate
  `isStacksAddress`. A predicate is total, which matches the source catching every decode
  failure.
- `isValidISODate` (src/utils.ts:18-21) is the external predicate `isIsoDate`. The
  JavaScript `Date` parser is host-defined and is not part of this model.
- Bech32m internals are the external functions `bech32mEncode` and `bech32mDecode`. These
  cover the checksum, the `toWords`/`fromWords` regrouping, the 512-character limit and the
  UTF-8 `Buffer` conversions. Any library failure is `Error.Bech32Failure`. The library's
  round trip is the hypothesis `Lawful`, not a proved fact. The `bech32` package lowercases
  prefixes, so an envelope made under `STX` decodes with the prefix `stx` and is accepted.
  The model says nothing about prefixes other than `stx` beyond what the decoder reports.
- `URLSearchParams` (WHATWG URL Standard, section 5) is replaced by an escape of `%`, `&`,
  `=` and `?` and its exact inverse. Byte-exact percent-encoding and `+` for space are not
  modelled. Only separator freedom and the inverse property are used.
- `console.error` and `console.log` (src/index.ts:165, 217; src/utils.ts:31) are left out.
  So are the `try`/`catch` blocks that only log and rethrow.
- A property holding `undefined` is modelled as absent. The record type has no way to hold
  `undefined` explicitly.
- JavaScript lists integer-like property names (such as `"1"`) before all others. Every
  property is taken in insertion order. This affects any request that carries such a name,
  not only `custom-` ones. For a registry operation the source's `for...in` visits that
  name first and reports it as not allowed; the model may report an earlier property's
  error instead, after deleting ignored names that come before it. For a `custom-`
  request the order of the encoded pairs differs.
- Strings are sequences of characters. Lone surrogates, which `Buffer.from(..., "utf8")`
  would replace, are not modelled.
- `Codec.EncodeStacksPayUrl` and `Validation.ValidateParameters` require `operation` to be
  present. The source's type declares it mandatory, and the `TypeError` raised without it
  is not modelled.
- `RoundTrip.KnownRoundTrip` and the lemmas built on it assume that no required value is
  empty. `RoundTrip.EmptyRequiredBreaksRoundTrip` shows why the round trip fails otherwise.
- `RoundTrip.CustomRoundTrip` assumes the operation name has no `?`.
  `RoundTrip.MarkInOperation` shows that such a name is cut at the `?` when decoded.
- src/types.ts holds only type declarations. The record is the pair sequence `Entries`.
  `contractAddress` is declared there but appears in no schema.
