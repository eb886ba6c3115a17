/** The failures the codec reports. The two sentinels come first; the others
    stand for the formatted errors of the encoder, the decoder and the
    conversion layer, keeping the facts their messages carry. `Panic` stands
    for a run-time panic of the reflection library. */
module Errors {
  import opened Values

  datatype Error =
      /** The decode source has none of the record-shaped fields. */
    | InvalidSource
      /** The source is neither a struct nor a pointer to one. */
    | InvalidSourceType
      /** A tag with a second free-form token. */
    | InvalidTag(tag: string)
      /** A metadata field whose declared type differs from the record slot. */
    | MetaTypeMismatch(tagName: string, source: Type, slot: Type)
    | CannotConvert(source: Type, target: Type)
    | BadIntText(text: string)
    | BadBoolText(text: string)
    | BadTimeText(text: string)
    | SliceElement(index: nat, cause: Error)
    | MapKey(cause: Error)
    | MapValue(cause: Error)
    | NestedStruct(cause: Error)
      /** copyStruct was handed something that is not a struct. */
    | NotStructs
      /** copyStruct could not convert the field bound to `name`. */
    | FieldConversion(name: string, cause: Error)
    | UnsupportedTarget(target: Type)
      /** Bin decoding could not convert the bin of the Go field `field`. */
    | BinConversion(field: string, cause: Error)
      /** A key metadata field that cannot be assigned. */
    | CannotChange(ty: Type)
    | MethodNotFound(methodName: string)
    | WrongType(methodName: string, expected: Type, got: Type)
    | DigestLengthMismatch(returned: nat, arrayLen: nat)
      /** A digest field that is neither a byte array nor a byte slice. */
    | WrongDigestTarget(got: Type)
      /** A generation/expiration field that cannot be assigned. */
    | CannotSet(tagName: string)
    | FieldNotFound(field: string)
      /** `cause`, prefixed with the metadata name it happened for. */
    | ForTag(tagName: string, cause: Error)
    | Overflow(value: int, dest: Type)
    | UnsupportedFieldType(dest: Type)
    | Panic(reason: string)
}
