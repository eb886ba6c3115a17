# aerospike-mapper-go, modelled in Dafny

This project models the codec at the heart of aerospike-mapper-go. The codec
turns a tagged Go struct into an Aerospike record and back, guided by each
field's `aero` struct tag.

- **Tags** (`tags.dfy`): `parseTag` splits the tag text at commas and trims
  each token. The tokens `meta`, `omit` and `omitempty` are flags. At most
  one other non-empty token may appear, and it becomes the bin name (or the
  metadata name after `meta`). A bare `meta` is the bin name `meta`.
- **Reflection** (`values.dfy`, `reflect.dfy`): Go's run-time type
  information is replaced by explicit descriptors.
  - A `Type` per kind the codec distinguishes, and a `Field` holding the Go
    name, the tag text and the declared type.
  - A `Value` that knows its own type.
  - A `Place` that records whether a value is addressable and whether it
    was reached through a non-exported field. Together these give Go's
    `CanSet` and the read-only mark that makes `Interface` and `Set` panic.
  - `fieldValueDeref`, `getField`, `getMethod`, `structValue`,
    `isEmptyValue`, `convertElementType` and `copyStruct` are functions on
    these descriptors.
- **Traversal** (`traverse.dfy`): every pass of the codec walks a struct
  field by field and recurses into struct-kind fields after dereferencing
  pointers. `Walk` is that loop, written once. `Leaves` lists the fields a
  pass visits, in order.
- **Encoding** (`encoder.dfy`): `Encode`/`encode`/`setMetadata` fill a
  record. Tagged fields go into bins. `meta` fields go into one of six
  metadata slots: generation, expiration, namespace, set name, digest and
  user key.
- **Decoding** (`decoder.dfy`): `Decode` walks the fields of a record value:
  - a `BatchRecord` is decoded in turn;
  - a `Record` supplies the counters and is then decoded in turn;
  - a `Key` supplies namespace, set name, user key and digest;
  - a `Bins` map supplies the bins;
  - at the top level, a `uint32` `Generation`/`Expiration` field supplies
    the record's own counters.

  Each supplier is one pass over the target: `decodeBins`, `decodeKey` and
  `decodeRecord`. The counters go through `setIntegerValue`.

  `Decode` is built from the corrected bins step `AssignBin` and the
  corrected `SetIntegerValue`. The library's own versions,
  `AssignBinAsWritten` and `SetIntegerValueAsWritten`, are modelled beside
  them and compared under "Findings".
- **Round trip** (`roundtrip.dfy`): a struct whose fields each map to a bin
  of their own decodes back to itself. The struct is encoded, its bins are
  handed back in a client record, and that record is decoded into the zero
  value of the struct's type.

The client's key, with its `Namespace`, `SetName`, `Value` and `Digest`
accessors, is the value `VKey`. RFC 3339 time parsing is the parameter
`TimeParser`.

## Model

| member | source | states |
|---|---|---|
| Tags.ParseTag | mapper.go:546-575 | The tag parses exactly when every non-flag token except the last is empty. The name is that last token. Each flag is set exactly when its token occurs. `meta` holds only with a name. A bare `meta` becomes the bin name `meta`. A failure reports the whole tag text. |
| Tags.FoldFlags | mapper.go:550-558 | Folding the tokens sets `meta`, `omit` and `omitempty` exactly when the token appears, whatever else the tag holds. |
| Tags.FoldNames | mapper.go:559-564 | Once a name is set, any further name token, even an empty one, is rejected. Otherwise the name kept is the last name token. |
| Tags.ParseTagPlainName | mapper.go:546-575 | A tag that is a single plain name (no comma, no surrounding blanks, not a flag) parses to that bin name with no flags. |
| Tags.ParseTagOmitEmptyExample | mapper.go:546-575 | `"offset, omitempty"` parses to bin `offset` with `omitempty`; blanks after the comma are trimmed. |
| Tags.ParseTagMetaExample | mapper.go:546-575 | `"meta,generation"` is the metadata field `generation`. |
| Tags.ParseTagBareMetaExample | mapper.go:568-572 | `"meta"` alone is the ordinary bin `meta`. |
| Tags.ParseTagTrailingCommaExample | mapper.go:559-564 | `"a,"` is invalid, because the empty token after the comma counts as a second name. |
| Text.Split | mapper.go:548 | Splitting yields at least one part, no part holds the separator, and joining the parts restores the text. |
| Text.SplitUnique | mapper.go:548 | Any list of separator-free parts that joins to the text is the split. |
| Text.TrimSpace | mapper.go:551 | The result is a slice of the input that starts and ends with a non-blank character, and only blanks were cut on either side. |
| Text.ParseFormatInt | reflect_utils.go:170-193 | Decimal formatting of any 64-bit integer parses back to that integer. |
| Text.FormatBool | reflect_utils.go:175 | The text of a boolean parses back to it. |
| Values.WrapInt | reflect_utils.go:180-193 | Conversion to a signed kind lands in the kind's range, keeps every value that already fits, and differs from its input by a multiple of 2 to the kind's width: it keeps the low bits. |
| Values.Zero | reflect_utils.go:143 | The zero value of a type has that type. |
| Reflect.FieldValueDeref | reflect_utils.go:12-18 | The field is dereferenced when it is a pointer. A nil pointer yields the invalid value, which is never a struct. A non-nil pointer's target is addressable. |
| Reflect.GetField | reflect_utils.go:21-42 | Lookup succeeds exactly when a field of that name exists. It then returns that field with the place it is read through, and otherwise fails with field-not-found. |
| Reflect.GetMethod | reflect_utils.go:45-65 | The four key accessors are found exactly on an addressable key. `Namespace`, `SetName` and `Digest` return the key's namespace, set name and digest bytes. `Value` returns the user key, or nothing when the key has none. |
| Reflect.StructValue | reflect_utils.go:68-88 | A reflected argument is taken as is. A boxed one is accepted exactly when it is a struct or a pointer to a struct, and otherwise fails with invalid-source-type. The struct found is writable, and addressable exactly when reached through a pointer. |
| Reflect.StructValueBoxing | reflect_utils.go:70-87 | A boxed struct, the same struct in an interface, and a pointer to it are all accepted and yield that struct. Only the pointer makes it addressable. |
| Reflect.EmptyIsZero | reflect_utils.go:91-117 | For scalars, strings, slices, maps, pointers and interfaces, a value is empty exactly when it is its type's zero value. |
| Reflect.EmptyArray | reflect_utils.go:93-95 | The zero value of an array type is empty exactly when the array has length 0. |
| Reflect.Convert | reflect_utils.go:122-162 | An absent value or a nil pointer, after one interface is unwrapped, converts to the target's zero value. A source whose pointer, dereferenced once, already has the target type is returned dereferenced and unchanged. A failure to an unsigned, array or interface target is always unsupported-target. |
| Reflect.ConvertSeesThrough | reflect_utils.go:132-155 | Two present, non-nil sources that agree once unwrapped and dereferenced convert alike to every target: the conversion looks through one interface and one pointer. |
| Reflect.ConvertKind | reflect_utils.go:164-340 | The per-kind conversion fails on an unsigned, array or interface target only as unsupported-target. |
| Reflect.ConvertScalar | reflect_utils.go:164-310 | Every successful conversion to text, a signed integer, a boolean or a time value has exactly that type. |
| Reflect.ConvertHasType | reflect_utils.go:122-340 | Every successful conversion yields a well-formed value of exactly the target type, through slices, maps, pointers and nested structs. |
| Reflect.ConvertNeverAbsent | reflect_utils.go:122-340 | A successful conversion never yields the invalid value. |
| Reflect.ConvertToOwnType | reflect_utils.go:159-162 | Converting a value to its own type returns it unchanged. |
| Reflect.IntTextRoundTrip | reflect_utils.go:170-193 | An integer converted to text and that text converted back to the same kind give the integer again. |
| Reflect.BoolTextRoundTrip | reflect_utils.go:174-227 | A boolean converted to text and back gives the boolean again. |
| Reflect.TextToInt | reflect_utils.go:187-193 | Text converts to an integer kind exactly when it parses as a 64-bit decimal. The result is then truncated to the kind, and otherwise the error names the text. |
| Reflect.IntToBool | reflect_utils.go:228-230 | An integer converts to `true` exactly when it is non-zero. |
| Reflect.UnsignedNotConverted | reflect_utils.go:164-236 | Unsigned sources are converted neither to text, nor to signed integers, nor to booleans. |
| Reflect.UnsupportedTargets | reflect_utils.go:338-339 | A value that is not already of an unsigned, array or interface target type is rejected as an unsupported target. |
| Reflect.ConvertToSlice | reflect_utils.go:238-257 | A slice target accepts only a slice, converts it element by element keeping its length, and fails exactly when some element fails. |
| Reflect.ConvertItemsElementwise | reflect_utils.go:248-256 | Each element of a converted slice is the conversion of the corresponding source element. |
| Reflect.ConvertItems | reflect_utils.go:248-256 | The element loop from position i yields one element per remaining source element. A failure names the first failing index, carries that element's own error, and every earlier element converts. |
| Reflect.MapPut | reflect_utils.go:282 | Storing a converted entry leaves it in the map, adds no entry but it, and keeps every entry with another key. |
| Reflect.MapPutOverwrites | reflect_utils.go:282 | On a map whose keys are distinct, storing keeps the keys distinct, and the stored value is the only one under its key: an existing entry is overwritten. |
| Reflect.ConvertEntries | reflect_utils.go:269-283 | The entry loop fails only on a key or on a value. |
| Reflect.ConvertToMap | reflect_utils.go:259-284 | A map target accepts only a map and fails with cannot-convert otherwise. Failures are labelled key or value. A converted map has the target's key and value types and distinct keys. |
| Reflect.ConvertEntry | reflect_utils.go:269-281 | A failed map conversion reports whether the key or the value failed. |
| Reflect.ConvertToPointer | reflect_utils.go:323-336 | A pointer target converts to the target type it points to and succeeds exactly when that conversion does. The result points at the converted value. |
| Reflect.CopyStruct | reflect_utils.go:344-369 | Copying from anything but a struct fails with the source-and-target-must-be-structs error. |
| Copying.CopyStructSpec | reflect_utils.go:344-405 | A struct copy succeeds exactly when every source field can be copied: valid tag, and when it has a target, exported and convertible to the target field's type. Otherwise it fails with the error of the first field that cannot. Into a struct, each target field holds the conversion of the last source field copied into it, or its zero when none is. Into the key type, the result is the zero key. |
| Copying.CopyFieldSpec | reflect_utils.go:371-401 | One source field fails exactly when it cannot be copied, with its tag, read or conversion error. Without a target it changes nothing. With one it stores its converted value there and nothing else. |
| Copying.CopyFieldsFailsAt | reflect_utils.go:371-402 | The copy loop from field i succeeds exactly when no field from i on is uncopyable, and otherwise fails with the first uncopyable field's error. |
| Copying.CopyFieldsValues | reflect_utils.go:371-402 | A successful copy loop leaves in each target field the conversion of the last source field copied into it, or its previous value when none is. |
| Copying.CopyTarget | reflect_utils.go:382-391 | A source field's target is the first target field named by its copy name, and only when that field is exported. There is no target exactly when the tag is malformed, or when every target field of that name is unexported or none exists. |
| Reflect.CopyNameFromTag | reflect_utils.go:376-384 | Read off the tag's trimmed tokens: a field is copied under its last free-form token when that is non-empty, under `meta` for a bare `meta`, and under its Go name when the tag holds only flags and empty tokens. It fails with the tag error exactly when a non-empty free-form token is followed by another free-form token. |

| Reflect.CopyStructHasType | reflect_utils.go:344-405 | A successful struct copy yields a value of the target struct type. |
| Traverse.WalkAccepts | mapper.go:245-263 | `Walk`, the per-field loop every pass shares, succeeds exactly when every field it visits, in order, is accepted. On failure it reports the error of the first field that fails. |
| Traverse.WalkUnchanged | mapper.go:245-277 | A pass whose every visited field keeps its value leaves the struct unchanged. |
| Traverse.WalkHasType | mapper.go:245-288 | A pass whose per-field step preserves types returns a well-formed value of the struct's type. |
| Traverse.WalkFlat | mapper.go:245-288 | On a struct without nested structs, a pass stores in each field exactly what the per-field step gives for it. |
| Encoder.SetMetadata | mapper.go:164-180 | An empty value leaves the record alone. A non-empty one must have the slot's type and be readable, or it fails with a type mismatch or a panic. On success it fills that slot and nothing else. |
| Encoder.EmptyRecord | mapper.go:63-70 | Encoding starts from no bins and every slot at its type's zero value. |
| Encoder.Encode | mapper.go:63-80 | Encoding fails with invalid-source-type exactly when the argument is neither a struct nor a pointer to one. |
| Encoder.EncodeIsFold | mapper.go:75-161 | The recursive encoding of nested and pointed-to structs equals one left-to-right step per visited field. |
| Encoder.LeafStepEffect | mapper.go:92-157 | One field fails exactly when it is not encodable. Otherwise it writes only its bin (its value, or its type's zero when empty) or only its slot. Omitted, empty `omitempty`, unnamed and untagged fields write nothing. |
| Encoder.LeafStep | mapper.go:92-157 | A single field fails only on a malformed tag, a metadata type mismatch or a panic. |
| Encoder.EncodeFields | mapper.go:82-158 | The field loop, nested structs included, fails only on a malformed tag, a metadata type mismatch or a panic. |
| Encoder.FoldAccepts | mapper.go:82-158 | Encoding succeeds exactly when every visited field is encodable. |
| Encoder.FoldSlotsTyped | mapper.go:102-140 | Every slot keeps exactly its declared type throughout the encoding. |
| Encoder.EncodeSpec | mapper.go:63-161 | Encoding succeeds exactly when every visited field is encodable. A bin exists exactly when some field writes it, and holds what the last such field writes. A slot no field fills keeps its zero, and a filled slot holds the last writer's value. |
| Decoder.Pass | mapper.go:239-242 | A pass needs a struct or a pointer to one and fails with invalid-source-type otherwise. A struct handed over by value is never changed. |
| Decoder.PassAccepts | mapper.go:239-288 | On a struct or pointer to one, a pass succeeds exactly when its step accepts every visited field, and otherwise fails with the first rejection. |
| Decoder.DecodeBinsAccepts | mapper.go:234-291 | Without a bins map nothing happens. A target that is not a struct fails with invalid-source-type. Otherwise the bins pass succeeds exactly when every visited field's bin step succeeds, and reports the first failure. |
| Decoder.AssignBin | mapper.go:254-287 | The corrected bins step fails only on a tag, a panic or a conversion named after the field. It changes a field only when the field is settable and its bin was found. |
| Decoder.AssignBinEffect | mapper.go:254-287 | The corrected bins step skips fields with no bin and fields that cannot be set, nil pointers included. Otherwise it stores the bin converted to the field's declared type, or fails with that conversion's error named after the field. |
| Decoder.AssignBinAsWritten | mapper.go:254-287 | As written, a field changes only when settable with its bin found, and a panic after the bin lookup comes only from a settable non-nil pointer to a non-interface type. |
| Decoder.Lookup | mapper.go:269-272 | A bin is found exactly when some entry has its name as key, and then the value found is that entry's. |
| Decoder.BinForTextKeys | mapper.go:254-272 | On bins keyed by text or by `any`, looking up a field's bin never panics. It fails only on a malformed tag, and a bin it finds is the value of an entry keyed by the field's bin name. |
| Decoder.SetIntegerValue | mapper.go:517-543 | The counter is copied exactly when both sides are integers, the value fits the field's kind and the source is readable. The field keeps its type and receives the value. Out of range is an overflow error, and a non-integer field is unsupported. |
| Decoder.SetIntegerValueAsWritten | mapper.go:517-543 | As written, the counter is copied exactly when field and counter are both signed or both unsigned, it fits and is readable. The field keeps its type and receives the value. |
| Decoder.SetIntegerValueAgrees | mapper.go:517-543 | Wherever the library's version succeeds or fails without a panic, the corrected one gives the same result. |
| Decoder.SetIntegerValueSignedFromUnsigned | mapper.go:523 | A `uint32` counter into an `int` field panics as written; the corrected version stores it. |
| Decoder.SetIntegerValueUnsignedOverflow | mapper.go:532-534 | A `uint32` counter too large for a `uint8` field panics as written; the corrected version reports overflow. |
| Decoder.AssignBinPointerField | mapper.go:275-287 | A non-nil `*int` field tagged with a bin panics as written; the corrected version stores the converted pointer. |
| Decoder.AssignBinPointerPanics | mapper.go:275-287 | As written, every assignable non-nil pointer field of a non-interface target panics once its bin converts. The corrected version yields the conversion. |
| Decoder.AssignBinAgrees | mapper.go:269-287 | For non-pointer fields the library's bins step and the corrected one coincide. Wherever the library's step succeeds or fails without a panic, the corrected one gives the same result. |
| Decoder.AssignBinNilPointerField | mapper.go:275-287 | A nil `*int` field is left nil by both versions. |
| Decoder.KeyResult | mapper.go:342-445 | An accessor's result is stored only when it has exactly the field's type. |
| Decoder.AssignKeyNeeds | mapper.go:325-331 | The key pass on a namespace, set name, user key or digest field succeeds only for an assignable field and an addressable key. |
| Decoder.DecodeKeyAccepts | mapper.go:294-450 | A target that is not a struct fails with invalid-source-type. Otherwise the key pass succeeds exactly when every visited field's key step succeeds, and reports the first failure. |
| Decoder.AssignKeyWrites | mapper.go:326-370 | A settable text field tagged `meta,namespace` or `meta,set_name` receives the key's namespace or set name. |
| Decoder.AssignKeyWrongText | mapper.go:342-370 | A settable namespace or set-name field of another type fails with the accessor's wrong-type error. |
| Decoder.AssignKeyUserKey | mapper.go:372-406 | A settable user-key field receives the user key only when it is an interface field, and fails with wrong-type otherwise. A key without a user key panics. |
| Decoder.AssignKeyDigest | mapper.go:408-445 | A settable digest field receives the digest bytes when it is a byte slice or a byte array of the digest's length. A byte array of another length fails with a length mismatch, and any other type with wrong-digest-target. |
| Decoder.DecodeRecordAccepts | mapper.go:452-514 | A target that is not a struct fails with invalid-source-type. Otherwise the counters pass succeeds exactly when every visited field's counter step succeeds, and reports the first failure. |
| Decoder.AssignCounterEffect | mapper.go:483-509 | The counters pass on a generation or expiration field succeeds exactly when the field is assignable and the record's counter fits it. The field then receives that counter's value at its own type. |
| Decoder.MetaPassesSkip | mapper.go:468-481 | Untagged and non-`meta` fields are left unchanged by the key and counters passes. |
| Decoder.Decode | mapper.go:183-188 | A record that is neither a struct nor a pointer to one is rejected with invalid-source-type. |
| Decoder.DecodeNeedsRecordPart | mapper.go:190-229 | Decoding succeeds only if the record has a batch record, a record or a bins map among its fields. When every field decodes but none is such a part, it fails with invalid-source. |
| Decoder.DecodeFieldPart | mapper.go:196-224 | A field counts as a record part exactly when it is a struct `BatchRecord` or `Record` or a map `Bins`. |
| Decoder.DecodeFieldsPart | mapper.go:190-225 | After the loop, the record flag is set exactly when some field is a record part. |
| Decoder.DecodeHasType | mapper.go:183-514 | A successful decode returns a well-formed value of the target's own type. |
| Decoder.DecodeByValue | mapper.go:183-232 | Decoding into a struct passed by value, not through a pointer, returns it unchanged. |
| RoundTrip.EncodeFlat | mapper.go:141-157 | For a struct of distinct plain bin fields, encoding succeeds and writes only those bins. A field's bin exists exactly when it is not omitted as empty, and holds the field's value. The metadata stays zero. |
| RoundTrip.DecodeBinsFlat | mapper.go:234-291 | Decoding the encoded bins into the zero value of the type yields the original struct. |
| RoundTrip.MetaPassesFlat | mapper.go:294-514 | The key and counters passes leave such a struct alone. |
| RoundTrip.EncodeDecode | mapper.go:63-291 | Encoding such a struct and decoding the client record holding its bins into a zero value restores the struct, whatever the key and counters. |

## Left out

- Floating-point kinds (`float32`, `float64`) and every conversion to or from them. Real arithmetic is outside this model.
- RFC 3339 parsing of text into `time.Time` is the parameter `TimeParser`. A time value is an opaque instant.
- `Uintptr`, channels and functions are not among the value kinds.
- Named non-struct types (such as a named map type) are identified with their underlying type.
- Embedded-field promotion: `getField` and `copyStruct` look up direct fields only. Embedding still governs reachability and read-only marks.
- Exportedness is decided on ASCII: a field is exported when its name starts with an ASCII upper-case letter.
- A failing pass returns only its error. The partial mutation the library leaves behind on error is not modelled.
- Pointer aliasing: a pointer owns its target. Two fields pointing at one value are independent here.
- Map iteration order is the order of the association list. Decoding into a map appends a new key, or overwrites an existing one.
- A nil slice and an empty slice are the same value.
- Error texts and the wrapping with `%w` are reduced to distinct error constructors.
- `copyStruct` receives the converted source itself. In the library it can receive the raw `reflect.Value` from `decodeBins`. That happens only through pointer fields, which the `decodeBins` finding already covers.
- Interface targets are not conversion targets. `convertElementType` rejects them except when the source already has that type, as the library does.
- A `time.Time` value is of struct kind, so every pass recurses into it instead of treating it as a field of its own. It has no fields here, so no pass writes a time field. In the library the passes recurse into it too, and find only untagged, unexported fields there, which they skip.
- The `len(results) == 0` branches (mapper.go:338, 361, 384, 397, 420) are unreachable, because the key's accessors always return one value.
- The `GetObject`-not-found branch (mapper.go:392-394) is unreachable, because every user-key value has `GetObject`. A key without a user key returns a nil interface, and `MethodByName` on it panics at mapper.go:391. The model reproduces that panic.
- The Aerospike key's internals (internal/testtypes/key.go, value.go) are not part of this model: a key is its four accessor results.
- Reflect.ConvertEntry: its contract states only how failures are labelled. The typing of converted entries is proved separately, by `EntryHasType`.
- Decoder.Decode: its contract states only the source-type check. The record-part rule, typing and by-value behaviour are the separate lemmas above.
- Decoder.DecodeByValue: only a by-value struct's own fields are covered. In the library, `fieldValueDeref` (mapper.go:246, 302, 460) makes the target of a non-nil pointer field settable even in a struct passed by value, and the key, counters and bins passes write there, where the caller can still see it. Here a pointer owns its target, so those writes are not visible to the caller.
- A nil map and an empty map are the same value. Storing into a nil map, which panics in Go, does not arise here, because `convertElementType` always makes a fresh map.
- Reflect.GetMethod: the read-only mark of the key is not checked. In Go, a method value taken from a value reached through a non-exported field panics when called; here the accessor's result is returned.
- RoundTrip.EncodeDecode: proved for structs whose fields are distinct plain bins. Nested structs, pointer fields and `meta` fields are not covered by the round trip.

## Findings

| source | as written | input that shows it | evidently intended | confidence | as-written member | corrected member |
|---|---|---|---|---|---|---|
| mapper.go:523 | `setIntegerValue` reads the record counter with `Int()` for a signed field, which panics on the record's `uint32` counters | a field `Gen int` tagged `meta,generation` decoded from a record with `Generation: 3` | store 3 in the signed field when it fits | not executed | Decoder.SetIntegerValueAsWritten, Decoder.SetIntegerValueSignedFromUnsigned | Decoder.SetIntegerValue |
| mapper.go:532-534 | the unsigned overflow message formats `recordValue.Int()`, which panics on an unsigned counter | a `uint8` field tagged `meta,generation` with `Generation: 300` | report an overflow error | not executed | Decoder.SetIntegerValueAsWritten, Decoder.SetIntegerValueUnsignedOverflow | Decoder.SetIntegerValue |
| mapper.go:275-287 | `decodeBins` converts the bin to the field's declared type (`*T` for a pointer field) but sets the dereferenced field (`T`), which panics for a non-nil pointer. A nil pointer is not settable and is skipped, by the library and by the corrected step alike | a field `Offset *int` tagged `offset`, pointing at 0, with bin `offset` = 7 | a non-nil pointer field receives the converted value, here a pointer to 7 | not executed | Decoder.AssignBinAsWritten, Decoder.AssignBinPointerField, Decoder.AssignBinPointerPanics, Decoder.AssignBinNilPointerField | Decoder.AssignBin |
