// Error kinds of the codec (src/error.rs) and the Result type every fallible
// operation of the model returns.
module Errors {

  /// Serde data-model types the serializer refuses.
  datatype SerSerdeType = SerChar | SerNone | SerSome | SerUnit

  /// Serde data-model types the deserializer refuses.
  datatype DeSerdeType = DeAny | DeChar | DeOption | DeUnit | DeIgnoredAny

  /// Everything that can go wrong; one constructor per error kind the core raises.
  datatype Error =
    // io::Error from the reader: fewer bytes left than a read needs
    | UnexpectedEof
    // FromUtf8Error: a decoded string is not valid UTF-8
    | Utf8Invalid
    // a checked integer conversion that does not fit, with the value converted
    | IntegerCast(n: int)
    | StringTooLong(len: nat)
    | SeqTooLong(len: nat)
    // serialization kinds
    | ExcessElements(len: nat)
    | SeqsWithUnknownLengthUnsupported
    | MapsWithUnknownLengthUnsupported
    | SerUnsupportedType(serType: SerSerdeType)
    // deserialization kinds
    | BytesLenPrefix254LessThan254(len: nat)
    | NonZeroBytesPadding
    | DeUnsupportedType(deType: DeSerdeType)
    | NoEnumVariantId
    // serde's generic `invalid_value` / `invalid_length` / `unknown_variant` messages
    | InvalidValue(found: int)
    | InvalidLength(have: int, need: int)
    | UnknownVariant(name: string)

  datatype Result<T> = Ok(value: T) | Err(error: Error)
  {
    predicate IsFailure() { Err? }

    function PropagateFailure<U>(): Result<U>
      requires Err?
    {
      Err(error)
    }

    function Extract(): T
      requires Ok?
    {
      value
    }
  }

  datatype Option<T> = None | Some(value: T)
}
