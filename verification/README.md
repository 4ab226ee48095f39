# grpcbridge: variable binding and the form-data wire format, in Dafny

This project models two parts of grpcbridge, a library that bridges HTTP requests to gRPC services.

1. **`RpcMessage`** is a request or response protobuf body together with its metadata. `setVar` binds a
   route variable (a path of nested message fields, a leaf field name and a raw string value) into the body.
   It walks the path from the body's own schema and gets or creates each nested message. It resolves the leaf
   field, coerces the raw value, and then overwrites a singular leaf or appends to a repeated one. Finally it
   rebuilds and stores the body. A missing segment or leaf raises `ConfigurationException`, and the stored
   body is left as it was.
2. **`ProtoFormDataConverter`** handles `application/x-www-form-urlencoded` bodies. `serialize` flattens the
   message's JSON projection into a string map and percent-encodes every value. It optionally rewrites each
   key to `{key}[index]` and joins the `key=value` pieces with `&`. `packMultiple` joins several serialised
   items with `&`. `parse` returns the builder's message at once for an absent or empty body. Otherwise it
   splits the body on `&` (dropping empty pieces), splits each piece at `=`, percent-decodes the values and
   hands the flat map to the JSON parser.

Files:

- `wrappers.dfy` holds `Option`, `Result` and `Outcome`.
- `proto.dfy` holds the protobuf data model. A `Message` carries its `Schema` (field name to descriptor:
  repeated flag and scalar or nested message kind) and a map from set fields to values. `Conforms` says
  every set field is a field of the schema with a value of its kind.
- `binding.dfy` holds `Bind`, the binder as a function of the old body, and the lemmas about it.
- `rpc_message.dfy` holds the class `RpcMessage`. Its `SetVar` is the imperative walk: a loop steps down
  the path and records each parent as a frame; the rebuild then grafts the changed leaf back into the frames
  from the inside out. `SetVar` is proved equal to `Bind`.
- `percent.dfy` holds `URLEncoder.encode` and `URLDecoder.decode` over byte-valued characters.
- `splitter.dfy` holds Guava's `Splitter.on(c)`, `omitEmptyStrings()` and `Joiner.on(c)`.
- `form_data.dfy` holds the converter: `SerializeEntries`/`Serialize`, `PackMultiple`, `ParseFlat`/`Parse`
  and `ContentType`.
- `form_data_lemmas.dfy` holds the round trips, the key rewriting and the error cases of the format.

The JSON printer, Gson's flattening, the JSON parser and `Variable.valueAs` are foreign code. They are
function parameters: `Printer`, `JsonParser` and `Coercion`.

In three places one might expect a more forgiving format. The model follows the code:

- One might expect an entry with no `=` (or with a second `=`) to be dropped. It is not. Guava's
  `withKeyValueSeparator` splitter throws `IllegalArgumentException`, modelled as `InvalidEntry`.
- One might expect a key that occurs twice to be resolved (last wins) or collected into a repeated field.
  It is neither. The same splitter throws on the second occurrence, modelled as `DuplicateKey`. So
  `a=1&a=2` is an error (`FormDataLemmas.DuplicateKeyExample`), not `a: [1, 2]`.
- One might expect a malformed `%` escape to become a `ParsingException`. It does not.
  `URLDecoder.decode` throws `IllegalArgumentException`, which `parse` does not catch; it is modelled as
  `MalformedEscape`.

## Model

| member | source | states |
|---|---|---|
| Rpc.RpcMessage.constructor | lib/src/main/java/grpcbridge/rpc/RpcMessage.java:23-26 | the new message holds exactly the given body and metadata |
| Rpc.RpcMessage.GetBody | lib/src/main/java/grpcbridge/rpc/RpcMessage.java:31-33 | returns the body currently stored, i.e. the one from the constructor or from the last successful `SetVar` |
| Rpc.RpcMessage.GetMetadata | lib/src/main/java/grpcbridge/rpc/RpcMessage.java:38-40 | returns the metadata, a constant field (line 17) fixed by the constructor that no operation can change |
| Rpc.RpcMessage.SetVar | lib/src/main/java/grpcbridge/rpc/RpcMessage.java:47-76 | if binding the variable into the old body succeeds, the body becomes exactly that result; on every failure the error is reported and the body is the old one; a body conforming to its schema still conforms |
| Rpc.PlugExtend | lib/src/main/java/grpcbridge/rpc/RpcMessage.java:60-75 | descending one more level adds one frame, and the final rebuild grafts into that frame first |
| Rpc.Plug | lib/src/main/java/grpcbridge/rpc/RpcMessage.java:75 | definition: `start.build()` finalising the nested builders bottom-up, grafting the changed leaf into the innermost frame's parent and that into the next, outwards; `PlugExtend` is its law, and `SetVar`'s loop invariant ties it to `Bind` |
| Rpc.Lift | lib/src/main/java/grpcbridge/rpc/RpcMessage.java:75 | definition: an error below the frames stays an error, a rebuilt leaf is plugged into the frames; used by `SetVar`'s loop invariant |
| Proto.Child | lib/src/main/java/grpcbridge/rpc/RpcMessage.java:60 | definition: `getFieldBuilder` on a singular message field, the set message when there is one and the default instance otherwise; `ChildConforms` and `IntermediateKeptOrCreated` are its laws |
| Proto.Graft | lib/src/main/java/grpcbridge/rpc/RpcMessage.java:75 | definition: the parent with the singular message field set to the rebuilt child, everything else kept; `BindAlongFrame` and `BindFrame` are its laws |
| Binding.Bind | lib/src/main/java/grpcbridge/rpc/RpcMessage.java:47-75 | definition: the body `setVar` stores, or the exception it throws, as a function of the old body; `SetVar` is proved equal to it, and its laws are `BindReachesLeaf`, `BindSucceedsIff`, `BindFrame`, `LastWriteWins` and `BindPreservesConformance` |
| Binding.BindAlong | lib/src/main/java/grpcbridge/rpc/RpcMessage.java:52-74 | definition: walk the rest of the path, set the leaf, and graft each rebuilt child into its parent on the way back; its laws are `BindAlongReachesLeaf`, `LastWriteWinsAlong`, `BindAlongFrame` and `BindAlongConforms` |
| Binding.Descend | lib/src/main/java/grpcbridge/rpc/RpcMessage.java:53-60 | definition: one step of the walk; a segment that is not a field is a configuration error naming it, a segment naming a scalar or repeated field is `UnsupportedPath`, and a singular message field is got or created; `ChildConforms` and `IntermediateKeptOrCreated` are its laws |
| Binding.Reach | lib/src/main/java/grpcbridge/rpc/RpcMessage.java:52-61 | definition: the message the walk reaches, or its first error; its laws are `ReachAppend` and `MissingSegmentFails` |
| Binding.SetLeaf | lib/src/main/java/grpcbridge/rpc/RpcMessage.java:63-74 | definition: resolve the leaf name, coerce the value, then set a singular leaf or append to a repeated one; its laws are `MissingLeafFails`, `BindSingularLeaf` and `BindRepeatedLeaf` |
| Binding.LeafField | lib/src/main/java/grpcbridge/rpc/RpcMessage.java:63-68 | definition: the descriptor of the leaf on the reached message, or the configuration error naming the leaf; the leaf lemmas are stated through it |
| BindingLemmas.ReachAppend | lib/src/main/java/grpcbridge/rpc/RpcMessage.java:52-61 | walking `p + q` is walking `p` and then walking `q` from where it ended; an error on `p` is the error of the whole walk |
| BindingLemmas.BindAlongReachesLeaf | lib/src/main/java/grpcbridge/rpc/RpcMessage.java:52-74 | binding along a path fails with the walk's error when the walk fails, and with the leaf step's error when that fails; otherwise it keeps the schema and the message now at the end of the path is exactly the leaf step's result |
| BindingLemmas.BindReachesLeaf | lib/src/main/java/grpcbridge/rpc/RpcMessage.java:52-75 | the same three cases for the whole variable path of `setVar` |
| BindingLemmas.MissingSegmentFails | lib/src/main/java/grpcbridge/rpc/RpcMessage.java:53-59 | if segment `k` is not a field of the schema reached after the first `k` segments, binding fails with a configuration error naming that segment |
| BindingLemmas.MissingLeafFails | lib/src/main/java/grpcbridge/rpc/RpcMessage.java:63-68 | if the leaf name is not a field of the schema at the end of the path, binding fails with a configuration error naming the leaf |
| BindingLemmas.BindSucceedsIff | lib/src/main/java/grpcbridge/rpc/RpcMessage.java:52-74 | binding succeeds if and only if the walk reaches the end of the path and the leaf step succeeds there |
| BindingLemmas.BindSingularLeaf | lib/src/main/java/grpcbridge/rpc/RpcMessage.java:72-74 | for a singular leaf, the leaf now holds exactly the coerced value, whatever it held before, and every other field of that message is unchanged |
| BindingLemmas.BindRepeatedLeaf | lib/src/main/java/grpcbridge/rpc/RpcMessage.java:70-71 | for a repeated leaf, the leaf now holds its old elements in their order followed by exactly one new element, the coerced value; every other field is unchanged |
| BindingLemmas.LastWriteWinsAlong | lib/src/main/java/grpcbridge/rpc/RpcMessage.java:52-74 | along any path, binding a second value to the same singular leaf gives the same message as binding only the second value |
| BindingLemmas.LastWriteWins | lib/src/main/java/grpcbridge/rpc/RpcMessage.java:72-74 | two `setVar` calls on the same singular leaf give the body that the second call alone would give (last write wins) |
| BindingLemmas.SingularRebindIdempotent | lib/src/main/java/grpcbridge/rpc/RpcMessage.java:72-74 | binding the same variable twice into a singular leaf is the same as binding it once |
| BindingLemmas.RepeatedAccumulates | lib/src/main/java/grpcbridge/rpc/RpcMessage.java:70-71 | two `setVar` calls on the same repeated leaf append both coerced values, in call order, after the old elements |
| BindingLemmas.BindAlongFrame | lib/src/main/java/grpcbridge/rpc/RpcMessage.java:48-61 | at every level of the path the new message agrees with the old one (same schema, same fields, same values) except on the one field the path descends into |
| BindingLemmas.BindFrame | lib/src/main/java/grpcbridge/rpc/RpcMessage.java:48-75 | nothing off the path changes: at every level of the variable's path, every sibling of the next segment is identical in the stored body |
| BindingLemmas.IntermediateKeptOrCreated | lib/src/main/java/grpcbridge/rpc/RpcMessage.java:60 | the first nested message on the path is reused with its contents kept, apart from the next step of the path, when it was set; otherwise it is created from the default message of its type |
| Proto.ChildConforms | lib/src/main/java/grpcbridge/rpc/RpcMessage.java:60 | the nested message the walk descends into (an existing one or a default one) conforms to its schema when its parent does |
| BindingLemmas.BindAlongConforms | lib/src/main/java/grpcbridge/rpc/RpcMessage.java:52-74 | binding along any path keeps a conforming message conforming |
| BindingLemmas.BindPreservesConformance | lib/src/main/java/grpcbridge/rpc/RpcMessage.java:47-76 | the body `setVar` stores conforms to its schema whenever the old body did |
| FormData.ContentType | lib/src/main/java/grpcbridge/parser/ProtoFormDataConverter.java:34-35 | the content type is `application/x-www-form-urlencoded` with charset UTF-8 |
| FormData.SerializeCharset | lib/src/main/java/grpcbridge/parser/ProtoFormDataConverter.java:52 | the charset name `serialize` hands to `URLEncoder`, `contentType.charset().or(UTF_8).name()`, is `UTF-8`; the encoder's charset step itself is abstracted |
| FormData.Serialize | lib/src/main/java/grpcbridge/parser/ProtoFormDataConverter.java:41-66 | definition: a printing failure is a `ParsingError`, otherwise the flat stage; its laws are `SerializeFailsIff`, `SerializedPieces`, `RoundTripFlat` and `ParseSerialized` |
| FormData.SerializeEntries | lib/src/main/java/grpcbridge/parser/ProtoFormDataConverter.java:45-60 | definition: rewrite the keys, refuse a key that occurs twice, and join the `key=encoded value` pieces with `&` in the printer's entry order; its laws are `SerializedPieces` (the pieces as a set) and `RoundTripFlat` |
| FormData.PackMultiple | lib/src/main/java/grpcbridge/parser/ProtoFormDataConverter.java:74-76 | definition: the items joined with `&`; its laws are `PackMultipleEntries`, `PackMultipleSplits` and `BatchRoundTrip` |
| FormData.ParseFlat | lib/src/main/java/grpcbridge/parser/ProtoFormDataConverter.java:88-102 | definition: the map splitter over the non-empty `&` pieces, then every value decoded; its laws are `CollectPairsSucceedsIff`, `CollectPairsResult`, `MalformedValueRejected` and `RoundTripFlat` |
| FormData.Entries | lib/src/main/java/grpcbridge/parser/ProtoFormDataConverter.java:89 | definition: `Splitter.on('&').omitEmptyStrings()`; its laws are `EmptyPiecesIgnored`, `PackMultipleEntries` and `EntriesOfJoin` |
| FormDataLemmas.EntriesOfJoin | lib/src/main/java/grpcbridge/parser/ProtoFormDataConverter.java:89 | the entries of a join of pieces whose keys have no `&` are exactly those pieces |
| FormData.KeyOf | lib/src/main/java/grpcbridge/parser/ProtoFormDataConverter.java:89 | definition: the text of an entry before its first `=`, the key the map splitter reads |
| FormData.WellFormedEntry | lib/src/main/java/grpcbridge/parser/ProtoFormDataConverter.java:89 | definition: an entry the map splitter accepts splits at `=` into exactly a key and a value; `CollectPairsSucceedsIff` states acceptance through it |
| FormData.ValueOf | lib/src/main/java/grpcbridge/parser/ProtoFormDataConverter.java:89 | definition: the text after the `=` of a well-formed entry; `CollectPairsResult` states the collected values through it |
| FormData.CollectPairs | lib/src/main/java/grpcbridge/parser/ProtoFormDataConverter.java:89 | definition: Guava's map splitter, left to right, checking a repeated key before the `=` count; its laws are `CollectPairsSucceedsIff`, `CollectPairsResult` and `DuplicateKeysRejected` |
| FormData.DecodeValues | lib/src/main/java/grpcbridge/parser/ProtoFormDataConverter.java:91-102 | definition: every value of the map decoded, or `MalformedEscape` if one fails; `DecodeEncodedValues` is its law |
| FormDataLemmas.DecodeEncodedValues | lib/src/main/java/grpcbridge/parser/ProtoFormDataConverter.java:91-102 | decoding a map whose values are encodings gives back the original values under the same keys |
| FormData.IntToString | lib/src/main/java/grpcbridge/parser/ProtoFormDataConverter.java:47 | the written index uses only digits and a minus sign, so it adds no `&` or `=` to a key |
| FormData.IndexedKey | lib/src/main/java/grpcbridge/parser/ProtoFormDataConverter.java:47 | definition: the key itself without an index, `{key}[index]` with one; its laws are `IndexedKeys`, `IndexedKeyInjective`, `IndexedKeyInjectiveAcross` and `IndexedKeyPlain` |
| FormData.Rekey | lib/src/main/java/grpcbridge/parser/ProtoFormDataConverter.java:46-47 | definition: every entry's key rewritten by `IndexedKey`, values unchanged; its laws are `RekeyKeepsDistinct`, `RekeyKeepsPlain` and `RekeyNone` |
| FormData.ToMap | lib/src/main/java/grpcbridge/parser/ProtoFormDataConverter.java:46-59 | definition: the map `Collectors.toMap` builds from the entries; its laws are `ToMapSpec` and `ToMapAppend` |
| FormDataLemmas.ToMapAppend | lib/src/main/java/grpcbridge/parser/ProtoFormDataConverter.java:46-59 | the map of two concatenated entry sequences is the first's map overridden by the second's |
| FormData.Piece | lib/src/main/java/grpcbridge/parser/ProtoFormDataConverter.java:60 | definition: the `key=value` that `MapJoiner` writes, the value encoded; its laws are `PieceSplits` and `PieceShape` |
| FormDataLemmas.PieceSplits | lib/src/main/java/grpcbridge/parser/ProtoFormDataConverter.java:60 | a piece whose key has no `=` splits at `=` into exactly that key and the encoded value |
| FormDataLemmas.PieceShape | lib/src/main/java/grpcbridge/parser/ProtoFormDataConverter.java:60 | a piece is never empty and contains `&` only if its key does |
| FormDataLemmas.NatToStringValue | lib/src/main/java/grpcbridge/parser/ProtoFormDataConverter.java:47 | the index is written in decimal: reading its digits back, most significant first, gives the number |
| FormDataLemmas.IntToStringInjective | lib/src/main/java/grpcbridge/parser/ProtoFormDataConverter.java:47 | distinct indices are written as distinct strings |
| FormDataLemmas.IndexedKeyInjectiveAcross | lib/src/main/java/grpcbridge/parser/ProtoFormDataConverter.java:47 | `{a}[i]` and `{b}[j]` coincide only when `i == j` and `a == b`, whatever the keys contain, so the suffix tells the items of a batch apart |
| FormData.FirstRepeated | lib/src/main/java/grpcbridge/parser/ProtoFormDataConverter.java:46-59 | `Collectors.toMap`'s duplicate check: no key is reported if and only if the keys are pairwise distinct and none was seen before; a reported key is one of them |
| FormData.Parse | lib/src/main/java/grpcbridge/parser/ProtoFormDataConverter.java:85-87 | an absent or empty body gives the builder's message |
| FormDataLemmas.EmptyBodySkipsJson | lib/src/main/java/grpcbridge/parser/ProtoFormDataConverter.java:85-87 | for an absent or empty body the result does not depend on the JSON parser at all |
| FormDataLemmas.IndexedKeys | lib/src/main/java/grpcbridge/parser/ProtoFormDataConverter.java:47 | without an index every output key is the input key; with one it is literally `"{" + key + "}[" + index + "]"`; values are untouched |
| FormDataLemmas.IndexedKeyExample | lib/src/main/java/grpcbridge/parser/ProtoFormDataConverter.java:47 | key `name` with index 2 is written `{name}[2]` |
| FormDataLemmas.IndexedKeyInjective | lib/src/main/java/grpcbridge/parser/ProtoFormDataConverter.java:47 | the key rewrite is injective, so it never merges two keys |
| FormDataLemmas.IndexedKeyPlain | lib/src/main/java/grpcbridge/parser/ProtoFormDataConverter.java:47 | the key rewrite adds neither `&` nor `=` |
| FormDataLemmas.RekeyKeepsDistinct | lib/src/main/java/grpcbridge/parser/ProtoFormDataConverter.java:46-47 | distinct printed keys stay distinct after the rewrite |
| FormDataLemmas.SerializeFailsIff | lib/src/main/java/grpcbridge/parser/ProtoFormDataConverter.java:41-66 | `serialize` fails if and only if printing fails or the printed map repeats a key; the index never decides it |
| FormDataLemmas.SerializedPieces | lib/src/main/java/grpcbridge/parser/ProtoFormDataConverter.java:45-60 | for printed keys without `&`, the output holds exactly one piece per printed entry, and its pieces as a set are the entries' `rewritten key=encoded value` pieces (order unspecified) |
| FormDataLemmas.ToMapSpec | lib/src/main/java/grpcbridge/parser/ProtoFormDataConverter.java:46-59 | with distinct keys, the collected map holds exactly the entries' keys, each mapped to its entry's value |
| Percent.Encode | lib/src/main/java/grpcbridge/parser/ProtoFormDataConverter.java:50-53 | an encoded value is made only of letters, digits, `.-*_`, `+` and `%`, so it never holds `&` or `=`; it is never shorter than the value |
| Percent.EncodeUnreserved | lib/src/main/java/grpcbridge/parser/ProtoFormDataConverter.java:50-53 | a value made only of letters, digits and `.-*_` is its own encoding |
| Percent.IsUnreserved | lib/src/main/java/grpcbridge/parser/ProtoFormDataConverter.java:50-53 | definition: `URLEncoder`'s characters that need no encoding, ASCII letters, digits and `.-*_`; `EncodeUnreserved` is its law |
| Percent.EncodeByte | lib/src/main/java/grpcbridge/parser/ProtoFormDataConverter.java:50-53 | definition: an unreserved character is itself, a space is `+`, any other byte is `%XY` with upper-case hexadecimal digits; `DecodeEncodedByte` is its law |
| Percent.DecodeEncodedByte | lib/src/main/java/grpcbridge/parser/ProtoFormDataConverter.java:95 | decoding the encoding of one byte, followed by anything, gives that byte in front of what follows decodes to |
| Percent.Decode | lib/src/main/java/grpcbridge/parser/ProtoFormDataConverter.java:95 | definition of `URLDecoder.decode`: `+` is a space, `%XY` is a byte, a `%` without two hexadecimal digits fails, anything else is itself; its laws are `DecodeEncode`, `DecodeEncodedPrefix` and `MalformedEscapeRejected` |
| FormDataLemmas.EncodeExample | lib/src/main/java/grpcbridge/parser/ProtoFormDataConverter.java:50-53 | `a b` encodes to `a+b`, and `7` to `7` |
| Percent.DecodeEncode | lib/src/main/java/grpcbridge/parser/ProtoFormDataConverter.java:95 | decoding the encoding of any value gives the value back |
| Percent.DecodeEncodedPrefix | lib/src/main/java/grpcbridge/parser/ProtoFormDataConverter.java:95 | decoding passes through an encoded prefix: what follows decodes behind the prefix's original value |
| Percent.DecodeEncodedPrefixFails | lib/src/main/java/grpcbridge/parser/ProtoFormDataConverter.java:95 | a decoding failure after an encoded prefix fails the whole decoding |
| Percent.MalformedEscapeRejected | lib/src/main/java/grpcbridge/parser/ProtoFormDataConverter.java:95 | after any prefix that decodes on its own, a `%` not followed by two ASCII hexadecimal digits makes the whole decoding fail (`URLDecoder` also takes a sign or non-ASCII digits there; see "## Left out") |
| Percent.StrayPercentExample | lib/src/main/java/grpcbridge/parser/ProtoFormDataConverter.java:95 | `%2f%` fails: a stray `%` is rejected even after a lower-case escape the encoder never writes |
| Percent.DecodeExample | lib/src/main/java/grpcbridge/parser/ProtoFormDataConverter.java:95 | `%2f%2F+` decodes to `// `: both cases of hexadecimal digits are accepted and `+` is a space |
| FormDataLemmas.MalformedValueRejected | lib/src/main/java/grpcbridge/parser/ProtoFormDataConverter.java:95 | a body with a malformed escape in some value fails to parse, with `MalformedEscape` once the entries themselves were accepted |
| Splitting.SplitJoin | lib/src/main/java/grpcbridge/parser/ProtoFormDataConverter.java:89 | splitting a join of a non-empty list of parts without the separator gives the parts back (no parts join to `""`, which splits into one empty piece) |
| Splitting.Split | lib/src/main/java/grpcbridge/parser/ProtoFormDataConverter.java:89 | `Splitter.on(c)`: never no piece; its laws are `SplitAround` (splitting at one separator splits both sides), `SplitWithout` and `SplitJoin` |
| Splitting.OmitEmpty | lib/src/main/java/grpcbridge/parser/ProtoFormDataConverter.java:89 | `omitEmptyStrings()`: no kept piece is empty and every kept piece was a piece |
| Splitting.Join | lib/src/main/java/grpcbridge/parser/ProtoFormDataConverter.java:75 | definition of `Joiner.on(c)`: the parts with one separator between neighbours; `SplitJoin` is its law |
| FormDataLemmas.PackMultipleSplits | lib/src/main/java/grpcbridge/parser/ProtoFormDataConverter.java:74-76 | `packMultiple` of no items is `""`; for items without `&` (such as single-field items) splitting it on `&` gives the items back in their order; `PackMultipleEntries` is the law for all items |
| FormDataLemmas.PackMultipleEntries | lib/src/main/java/grpcbridge/parser/ProtoFormDataConverter.java:74-76 | the entries `parse` sees in a packed body are those of each item, in item order |
| FormDataLemmas.BatchRoundTrip | lib/src/main/java/grpcbridge/parser/ProtoFormDataConverter.java:41-102 | items serialised with pairwise distinct indices (distinct keys free of `&` and `=` within each) and packed with `&` all serialise, and the packed body parses as one flat body to the union of the items' maps under their rewritten keys |
| FormDataLemmas.BatchKeys | lib/src/main/java/grpcbridge/parser/ProtoFormDataConverter.java:47 | across a batch with distinct indices, all rewritten keys are distinct and free of `&` and `=` |
| FormDataLemmas.BatchItemsDisjoint | lib/src/main/java/grpcbridge/parser/ProtoFormDataConverter.java:47 | the maps of two items with different indices share no key, so the batch map is a union in which no item overrides another |
| FormDataLemmas.EmptyPiecesIgnored | lib/src/main/java/grpcbridge/parser/ProtoFormDataConverter.java:89 | empty pieces are ignored: `a&&b` has the same entries, and parses to the same result, as `a&b` |
| FormDataLemmas.CollectPairsSucceedsIff | lib/src/main/java/grpcbridge/parser/ProtoFormDataConverter.java:89 | the map splitter accepts the entries if and only if each splits at `=` into exactly a key and a value, no two share a key, and no key was collected before |
| FormDataLemmas.CollectPairsResult | lib/src/main/java/grpcbridge/parser/ProtoFormDataConverter.java:89 | an accepted body's map holds exactly the entries' keys, each mapped to its entry's still-encoded value |
| FormDataLemmas.DuplicateKeysRejected | lib/src/main/java/grpcbridge/parser/ProtoFormDataConverter.java:89 | a body in which two entries share a key fails to parse |
| FormDataLemmas.RepeatedKeyRejected | lib/src/main/java/grpcbridge/parser/ProtoFormDataConverter.java:89 | for `k` and `v1` free of `&` and `=`, `k=v1&k=v2` fails with a duplicate-key error naming `k`, whatever `v2` holds (the key is checked first), the empty key included |
| FormDataLemmas.DuplicateKeyExample | lib/src/main/java/grpcbridge/parser/ProtoFormDataConverter.java:89 | `a=1&a=2` fails with a duplicate-key error for `a`, rather than being collected into a list |
| FormDataLemmas.EmptyKeyExample | lib/src/main/java/grpcbridge/parser/ProtoFormDataConverter.java:89 | `=1&=2` fails with a duplicate-key error for the empty key |
| FormDataLemmas.RepeatedKeyFirstExample | lib/src/main/java/grpcbridge/parser/ProtoFormDataConverter.java:89 | `a=1&a=x=y` fails with a duplicate-key error for `a`, not as an entry with two `=` |
| Splitting.SplitPrefix | lib/src/main/java/grpcbridge/parser/ProtoFormDataConverter.java:89 | a prefix without the separator is glued to the first piece of what follows it |
| FormDataLemmas.RoundTripFlat | lib/src/main/java/grpcbridge/parser/ProtoFormDataConverter.java:45-102 | for a printed map with distinct keys free of `&` and `=`, serialising succeeds, and splitting and decoding the output gives back the same key to value map (keys as rewritten for the index) |
| FormDataLemmas.ParseSerialized | lib/src/main/java/grpcbridge/parser/ProtoFormDataConverter.java:41-105 | `parse` of what `serialize` wrote hands the JSON parser exactly the printed map; an empty map gives the empty body, which parses to the builder's message |
| FormDataLemmas.SerializeExample | lib/src/main/java/grpcbridge/parser/ProtoFormDataConverter.java:41-60 | `{string_field: "a b", int_field: "7"}` serialises to exactly two pieces, `string_field=a+b` and `int_field=7`, in an order the model does not fix |
| FormDataLemmas.ParseExample | lib/src/main/java/grpcbridge/parser/ProtoFormDataConverter.java:88-102 | `string_field=a+b&int_field=7` gives the flat map `{string_field: "a b", int_field: "7"}` |

## Left out

- The JSON printer, Gson's `fromJson`/`toJson` and `ProtoJsonConverter.parse` are foreign libraries. They are
  the parameters `Printer` and `JsonParser`. The printer is taken to yield the flat string map directly, so a
  printed JSON object that Gson cannot flatten into `Map<String, String>` is not modelled.
- `parallelStream()` is concurrency only. The model collects sequentially. Guava's splitter runs before the
  stream, so its first bad entry is reported as in Java. Which of several malformed values Java reports is
  not modelled: `MalformedEscape` names no value.
- FormData.SerializeEntries: the model joins the pieces in the printer's entry order. Java joins the
  `HashMap` that `Collectors.toMap` builds, so its order follows the hash buckets of the rewritten keys.
  Only statements about the set of pieces (`SerializedPieces`, `SerializeExample`) and about the parsed
  map (`RoundTripFlat`, `BatchRoundTrip`) carry over to Java.
- Charsets are not modelled. Values are strings of byte-valued characters (`Octets`), that is, after the
  charset step. `serialize` always encodes with UTF-8, which every JVM supports. `parse` decodes with the
  caller's `charset.name()`. An unsupported name there would throw `UnsupportedEncodingException`, wrapped in
  `ParsingException`. The model has no charset parameter, so that path is left out.
- FormData.SerializeCharset: it only names the charset. `Encode` takes no charset, so nothing ties the name
  to the encoding; the model's values are already bytes.
- FormDataLemmas.SerializedPieces: it requires printed keys without `&`. Java writes a key unescaped
  (`Joiner.withKeyValueSeparator` at `ProtoFormDataConverter.java:60`), so a key with `&` makes the body
  split into more pieces than entries, and no set-of-pieces statement holds. `RoundTripFlat` needs keys
  without `&` and `=` for the same reason.
- Percent.Decode: `URLDecoder` reads an escape with `Integer.parseInt(…, 16)`. That also accepts a sign
  (`%+F`, `%-0`) and, through `Character.digit`, non-ASCII digits such as fullwidth `Ａ`–`Ｆ`/`ａ`–`ｆ` and
  Arabic-Indic digits (`%٤١` is `A`). The model accepts exactly two ASCII hexadecimal digits and rejects
  those escapes.
- `Variable.valueAs` and the protobuf runtime (`findFieldByName`, `getFieldBuilder`, `setField`,
  `addRepeatedField`) are not shown. The schema datatype and the `Coercion` parameter stand for them.
  - A coercion that fails is `ValidationError`.
  - A value of the wrong type, which `setField` refuses, is `TypeMismatch`.
  - A path segment naming a scalar or repeated field, where the library throws from `getFieldBuilder`, is
    `UnsupportedPath`.
  - A message-typed leaf is `UnsupportedLeaf`.
- BindingLemmas.BindFrame: the schema model has no oneofs. In protobuf, `setField` and `getFieldBuilder`
  clear the other members of the same oneof, so for oneof siblings "every sibling is identical" (also in
  `BindAlongFrame` and `BindSingularLeaf`) does not hold of the library.
- BindingLemmas.BindSingularLeaf: the model follows explicit field presence (proto2, or proto3 `optional`).
  It records a singular leaf as set even when the coerced value is its type's default (`0`, `""`, `false`).
  For a proto3 field without presence, `setField` with the default leaves `hasField` false, and the built
  message equals one where the field is unset. Model messages therefore tell apart two messages that
  protobuf's equality identifies.
- BindingLemmas.BindSucceedsIff: the schema model has no proto2 `required` fields. `start.build()` throws
  `UninitializedMessageException` when the body, or an intermediate message the walk created, lacks a
  required field. That failure is outside the model, so the "if and only if" holds only for schemas
  without required fields.
- Rpc.RpcMessage.SetVar: nested builders that are shared and mutated in place are modelled as values. The
  walk records each parent as a frame and rebuilds the body from the frames. Aliasing between builders is
  therefore not represented; only the message that `start.build()` produces is.
- An unset intermediate message that the walk passes through is set in the rebuilt body even when nothing
  below it changes. This is what `getFieldBuilder` followed by `build()` does.
- `io.grpc.Metadata` contents and `RpcMessage.toString` are opaque or diagnostic. `Metadata` is an
  uninterpreted value here.
- Proto.Schema: a schema is a finite datatype value, so a message type that contains itself, directly or
  through others (`message Node { Node child = 1; }`, `google.protobuf.Struct`/`Value`), has no schema
  value here. Such a type can only be represented by a finite unfolding deep enough for the paths used. No
  proved property depends on this.
- Floating-point fields are not modelled. The numeric scalar kind is an unbounded integer, and the index
  (a Java `Integer`) is an unbounded `int`.
- `ProtoConverter` (the superclass) and the test fixture services are not part of this model.
