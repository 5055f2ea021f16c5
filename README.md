# serde_mtproto in Dafny

This project models the core of serde_mtproto, a Rust codec for the binary
serialization that Telegram's MTProto uses, and proves properties of that
model. The model covers these parts:

- **Encoder** (`Ser`). A `Serializer` class appends to its `writer`.
  Integers are little-endian and at least 32 bits wide. Strings and byte
  strings get a one-byte or `0xFE` + three-byte length prefix and zero
  padding to a multiple of four. Sequences and maps carry a u32 count;
  tuples, structs and enum variants carry no header. The
  `SerializeFixedLengthSeq` and `SerializeMap` classes count elements and
  refuse excess ones. Each method is proved against a specification
  function (`Encode`).
- **Decoder** (`De`). A `Deserializer` class keeps a cursor into a byte
  sequence. It is driven by a `Shape` descriptor and takes enum variant
  names from a hint list, front first. `SeqAccess`, `MapAccess` and
  `EnumVariantAccess` are classes too. Each method is proved against a
  specification function (`ValueAt`).
  - The decoder has a `canonical` flag, called the canonicity extension
    below. When it is set, the decoder refuses non-zero string padding
    and a `0xFE` prefix announcing fewer than 254 bytes.
- **Size predictor** (`Sized`). It mirrors the encoder's branches, and a
  lemma proves it equals the encoded length. The long-string branch as
  written in the source is modelled separately (see Findings).
- **Type-id tables and the `Identifiable` contracts** (`Identifiable`,
  `Common`).
- **The wrappers** `Boxed`, `WithSize`, `BoxedWithSize` and
  `BoxedWithLength` (`Wrappers`).
- **The 16-byte-padded unsized byte buffer** (`Helpers`). Its serializer
  loop and its seeded deserializer are proved against the padded bytes.
- **The checked cast and the sequence-length check** (`Utils`).
- **Pure helpers of the derive crate**:
  - `collect_results` (`DeriveExt`);
  - the id-literal radix parser, the attribute search and the
    `check_type_id` modes of the newer derive (`DeriveIdentifiable`);
  - the older derive with its for-loops (`DeriveMtIdentifiable`).

Round trips are proved for every value that conforms to a shape:
- every conforming value encodes successfully;
- decoding its encoding gives the value back and consumes exactly the
  encoding and its hints (`RoundTrip`);
- with the canonicity extension every successful decode re-encodes to
  exactly the bytes consumed, at the level of the serde data model
  (`Decoding`). A decoded map is its entries as read, duplicate and
  out-of-order keys included; a `BTreeMap` built from them would drop or
  reorder entries and re-encode differently.

Golden vectors of the regression tests are restated as lemmas
(`Vectors`), each with its encoding, its decoding with the test's hints and,
where the test predicts it, its size:
- `Foo`, `Point3I` and `Wrapper`, bare and boxed;
- `Nothing`, `CLike::B`, `Cafebabe::Baz`, `Cafebabe::Blob`,
  `Cafebabe::Quux` and `Cafebabe::Spam`, boxed;
- the padding of the `Message` buffer;
- the fuzz inputs.

The vectors that are not restated are listed under Left out.

Supporting modules:
- `Bytes`: little-endian numbers and their inverse.
- `Ints`: the integer kinds, their ranges and their two's-complement
  patterns.
- `Errors`: the error kinds and a `Result` type.
- `Values`: the serde data model as `Value` and `Shape`, plus conformance.
- `Utf8`: the well-formed UTF-8 check that `String::from_utf8` applies to
  decoded strings, written out as the byte patterns of table 3-7 of the
  Unicode Standard (chapter 3).

## Model

| member | source | states |
|---|---|---|
| Ser.EncodeBool | src/ser.rs:58-61 | a bool encodes as four bytes; the two patterns are given by Vectors.TrueEncoding and Vectors.FalseEncoding |
| Ser.EncodeInt | src/ser.rs:26-41 | 8- and 16-bit kinds are written as 32-bit words, 32- and 64-bit kinds at their own width; the output is 4 or 8 bytes |
| Ser.EncodeByteString | src/ser.rs:80-117 | a string or byte string encodes exactly when its length is at most 0xFFFFFF, otherwise fails with StringTooLong(len); the encoding is a multiple of 4 bytes long |
| Ser.ByteStringLayout | src/ser.rs:85-114 | the layout: a one-byte length for at most 253 bytes, 254 followed by a three-byte little-endian length otherwise, then the data, then fewer than four zero bytes |
| Ser.PaddingFor | src/ser.rs:113-114 | the padding is below 4 and brings the length to a multiple of 4 |
| Ser.U32Field | src/ser.rs:34-41 | a u32 encodes as its four little-endian bytes |
| Ser.U64Field | src/ser.rs:34-41 | a u64 encodes as its eight little-endian bytes |
| Ser.EncodingIsAligned | tests/regression_tests.rs:514-531 | every successful encoding is a multiple of 4 bytes long |
| Ser.Encode | src/ser.rs:157-247 | the reference definition of what the serializer writes: it fails only with a serializer error (an unsupported type, a too-long string, a failed cast, excess elements or an unknown length), and char, none, some and () always fail with SerUnsupportedType |
| Ser.EncodeElems | src/ser.rs:273-283 | elements fed through a counter fail only with a serializer error, and a success never passes the declared length |
| Ser.EncodeEntries | src/ser.rs:414-430 | the same for keys and values alternating, where only keys count against the length |
| Ser.EncodeValues | src/ser.rs:426-430 | the same, starting at a value |
| Ser.Serializer.constructor | src/ser.rs:14-23 | a new serializer has an empty writer |
| Ser.Serializer.SerializeBool | src/ser.rs:58-61 | appends the four bytes of the bool's id to the writer |
| Ser.Serializer.SerializeInt | src/ser.rs:26-41 | appends the widened little-endian integer to the writer |
| Ser.Serializer.WriteByteString | src/ser.rs:80-155 | appends the length prefix, the bytes and the padding; a too-long input leaves the writer unchanged and fails |
| Ser.Serializer.SerializeStr | src/ser.rs:80-117 | writes what the string encoding prescribes, or fails with nothing written |
| Ser.Serializer.SerializeBytes | src/ser.rs:119-155 | writes what the byte-string encoding prescribes, or fails with nothing written |
| Ser.Serializer.SerializeSeq | src/ser.rs:200-206 | an unknown length fails with SeqsWithUnknownLengthUnsupported and a length above u32 fails with IntegerCast; otherwise the count is written and a fresh counter starts at 0 |
| Ser.Serializer.SerializeTuple | src/ser.rs:208-217 | writes no header and returns a counter of the given length, failing when the length exceeds u32 |
| Ser.Serializer.SerializeMap | src/ser.rs:228-234 | like SerializeSeq with MapsWithUnknownLengthUnsupported |
| Ser.Serializer.Serialize | src/ser.rs:157-247 | writes exactly Encode(v) on success, covering unit struct and unit variant (nothing written), newtype struct and variant, tuple, struct and variants (fields only), seq and map (count then items), and refusing char, none, some and unit |
| Ser.Serializer.SerializeElements | src/ser.rs:286-386 | feeding elements one by one through the counter writes their encodings in order, or fails at the first excess element or failing element |
| Ser.Serializer.SerializeEntries | src/ser.rs:414-434 | feeding keys and values alternately writes their encodings in order and counts only keys |
| Ser.Serializer.SerializeSeqOf | src/ser.rs:200-206 | a sequence value writes exactly its encoding (count, then elements) or fails with the error its encoding fails with |
| Ser.Serializer.SerializeMapOf | src/ser.rs:228-234 | a map value writes exactly its encoding (count, then keys and values) or fails with the error its encoding fails with |
| Ser.Serializer.SerializeFields | src/ser.rs:208-247 | a tuple, struct or fields variant writes exactly the encoding of its fields, with no header, or fails as that encoding does |
| Ser.Serializer.SerializeEntry | src/ser.rs:414-428 | one key (even position, counted) or value (odd position) written is the front of the encoding of the entries from there on; an error is the one that encoding fails with |
| Ser.SerializeFixedLengthSeq.constructor | src/ser.rs:259-265 | a new counter belongs to its serializer and starts at 0 |
| Ser.SerializeFixedLengthSeq.SerializeElement | src/ser.rs:273-283 | at or past the declared length it fails with ExcessElements(len) and writes nothing; otherwise it writes the element and advances next_index, which never exceeds len |
| Ser.SerializeFixedLengthSeq.End | src/ser.rs:298-300 | ending a sequence always succeeds |
| Ser.SerializeMap.constructor | src/ser.rs:389-406 | a new map counter belongs to its serializer and starts at 0 |
| Ser.SerializeMap.SerializeKey | src/ser.rs:414-424 | at or past the declared length it fails with ExcessElements(len) and writes nothing; otherwise it writes the key and advances next_index, which never exceeds len |
| Ser.SerializeMap.SerializeValue | src/ser.rs:426-430 | writes the value without touching the counter |
| Ser.SerializeMap.End | src/ser.rs:432-434 | ending a map always succeeds |
| Ser.ToBytes | src/ser.rs:439-446 | the bytes returned are Encode(v), or its error |
| Values.Conforms | src/de.rs:170-218 | no conforming value has an unsupported shape or is a char, an option or (), which both directions refuse |
| Values.HintsOf | src/de.rs:266-278 | a variant's hints start with its own name; a bool, integer, string, byte string or unit struct needs none |
| Utf8.AsciiIsValid | src/de.rs:61 | every byte string of ASCII bytes is accepted by the UTF-8 check |
| Utf8.ThreeByteChar | src/de.rs:61 | a lead byte from E1 to EC and two continuation bytes form one character, after which the rest is checked on its own |
| Utf8.ContinuationAloneInvalid | src/de.rs:61 | a lone continuation byte is refused |
| De.UintAt | src/de.rs:28-49 | reading w little-endian bytes succeeds exactly when they are there, gives their value and advances by w, and otherwise fails with UnexpectedEof |
| De.BytesAt | src/de.rs:51-79 | reading n bytes succeeds exactly when they are there and gives those bytes |
| De.StrInfoAt | src/de.rs:28-49 | a header read ends after pos and within the input, with padding below 4; a one-byte header announces at most 253 bytes; with the canonicity extension a 0xFE header announces at least 254 |
| De.ByteStringAt | src/de.rs:51-79 | the data read and the cursor after header, data and padding stay within the input, past the data; a text read is valid UTF-8 |
| De.BoolAt | src/de.rs:137-155 | a bool read consumes four bytes within the input; the only errors are UnexpectedEof and InvalidValue |
| De.IntAt | src/de.rs:83-111 | an integer read is in its kind's range and consumes exactly the wire width; the only errors are UnexpectedEof and IntegerCast |
| De.ValueAt | src/de.rs:131-285 | the reference definition of what the deserializer reads for a shape: a read never moves the cursor backwards |
| De.ShapeAt | src/de.rs:131-285 | the same, for the branch each shape takes |
| De.ElemsAt | src/de.rs:309-319 | reading count elements never moves the cursor backwards |
| De.ElemsCount | src/de.rs:309-319 | a successful read of count elements yields exactly count values |
| De.EntriesAt | src/de.rs:344-360 | reading count key/value pairs never moves the cursor backwards |
| De.EntriesCount | src/de.rs:344-360 | a successful read of count pairs yields exactly 2 * count values |
| De.ValuesAt | src/de.rs:356-360 | the same read starting at a value never moves the cursor backwards |
| De.ValuesCount | src/de.rs:356-360 | started at a value, a successful read yields 2 * count - 1 values |
| De.FieldsAt | src/de.rs:240-250 | reading the fields of a tuple or struct never moves the cursor backwards |
| De.FieldsFrom | src/de.rs:240-250 | the same for the loop over the field shapes |
| De.FieldsCount | src/de.rs:240-250 | a successful read yields exactly one value per field shape |
| De.FieldsFromCount | src/de.rs:240-250 | the same for the loop over the field shapes |
| De.ValueOf | src/de.rs:419-426 | from_bytes keeps the decoded value or the error |
| De.Deserializer.constructor | src/de.rs:19-26 | a new deserializer starts at position 0 with the given input and hints |
| De.Deserializer.ReadUint | src/de.rs:28-49 | advances the cursor exactly as UintAt prescribes |
| De.Deserializer.ReadExact | src/de.rs:51-79 | advances the cursor exactly as BytesAt prescribes |
| De.Deserializer.GetStrInfo | src/de.rs:28-49 | reads the string header as StrInfoAt prescribes |
| De.Deserializer.ReadByteString | src/de.rs:51-79 | reads header, data and padding as ByteStringAt prescribes |
| De.Deserializer.DeserializeBool | src/de.rs:137-155 | reads a bool as BoolAt prescribes |
| De.Deserializer.DeserializeInt | src/de.rs:83-111 | reads an integer as IntAt prescribes |
| De.Deserializer.DeserializeIdentifier | src/de.rs:272-278 | takes the first hint and removes it from the list; with no hint left it fails with NoEnumVariantId |
| De.Deserializer.Deserialize | src/de.rs:131-285 | the value read, the new cursor and the remaining hints are those of ValueAt |
| De.Deserializer.DeserializeSeq | src/de.rs:232-238 | reads a u32 count, then exactly that many elements, as ValueAt prescribes |
| De.Deserializer.DeserializeMap | src/de.rs:252-258 | reads a u32 count, then exactly that many key/value pairs, as ValueAt prescribes |
| De.Deserializer.DeserializeTuple | src/de.rs:240-264 | reads no count, only the fields in order, as FieldsAt prescribes |
| De.Deserializer.DeserializeEnum | src/de.rs:266-270 | reads no discriminant; the variant comes from the hints and its payload follows, as ValueAt prescribes |
| De.SeqAccess.constructor | src/de.rs:294-302 | a new sequence access starts at index 0 |
| De.SeqAccess.NextElement | src/de.rs:309-319 | past the count it returns None without consuming input or hints; otherwise it reads one element and advances next_index |
| De.MapAccess.constructor | src/de.rs:329-337 | a new map access starts at index 0 |
| De.MapAccess.NextKey | src/de.rs:344-354 | past the count it returns None without consuming input or hints; otherwise it reads one key and advances next_index |
| De.MapAccess.NextValue | src/de.rs:356-360 | reads one value |
| De.EnumVariantAccess.constructor | src/de.rs:368-372 | wraps the deserializer |
| De.EnumVariantAccess.VariantSeed | src/de.rs:380-386 | takes the variant name from the front of the hints, failing with NoEnumVariantId when they are exhausted |
| De.EnumVariantAccess.UnitVariant | src/de.rs:394-396 | a unit variant consumes nothing and succeeds |
| De.EnumVariantAccess.NewtypeVariantSeed | src/de.rs:398-402 | reads the payload as ValueAt prescribes |
| De.EnumVariantAccess.TupleVariant | src/de.rs:404-414 | reads the fields as FieldsAt prescribes |
| De.FromBytes | src/de.rs:419-426 | decodes from position 0 with the given hints, as ValueAt prescribes |
| Decoding.StrHeaderRead | src/de.rs:28-49 | header byte b up to 253 gives len b with padding (4-(len+1)%4)%4; 254 gives a three-byte length with padding (4-len%4)%4; 255 fails with InvalidValue(255); a short input fails with UnexpectedEof; with the canonicity extension a long header announcing fewer than 254 bytes is refused |
| Decoding.ByteStringRead | src/de.rs:51-79 | a successful read returns exactly the announced data bytes and consumes header + len + padding bytes, a multiple of 4; text is valid UTF-8; with the canonicity extension the padding is zero |
| Decoding.CanonicalByteString | src/de.rs:51-79 | with the canonicity extension the bytes consumed are exactly the encoding of the string read |
| Decoding.BoolRead | src/de.rs:137-155 | only the two id patterns decode, true for the true id, and re-encode to the same bytes; any other word fails with InvalidValue carrying the signed word |
| Decoding.IntRead | src/de.rs:83-111 | a full wire word is read and then cast; an out-of-range value fails with IntegerCast and is never truncated; a success re-encodes to the bytes read |
| Decoding.CanonicalReencodes | src/de.rs:419-426 | with the canonicity extension, every successful decode conforms to the shape, re-encodes to exactly the bytes consumed and used exactly its own hints |
| Decoding.BoolReencodes | src/de.rs:137-155 | the same for a bool |
| Decoding.IntReencodes | src/de.rs:157-165 | the same for an integer |
| Decoding.ByteStringReencodes | src/de.rs:176-206 | the same for a string or byte string |
| Decoding.NewtypeReencodes | src/de.rs:226-230 | the same for a newtype struct |
| Decoding.CountReencodes | src/de.rs:232-238 | a count read from the wire is a u32 that re-encodes to the same four bytes |
| Decoding.SeqReencodes | src/de.rs:232-238 | the same for a sequence |
| Decoding.MapReencodes | src/de.rs:252-258 | the same for a map |
| Decoding.TupleReencodes | src/de.rs:240-264 | the same for a tuple or struct |
| Decoding.EnumReencodes | src/de.rs:266-270 | the same for an enum |
| Decoding.NewtypeVariantReencodes | src/de.rs:398-402 | the same for a newtype variant |
| Decoding.FieldsVariantReencodes | src/de.rs:404-414 | the same for a tuple or struct variant |
| Decoding.ElemsReencode | src/de.rs:309-319 | count elements read re-encode to the bytes consumed |
| Decoding.EntriesReencode | src/de.rs:344-360 | count key/value pairs read re-encode to the bytes consumed |
| Decoding.FieldsReencode | src/de.rs:240-250 | fields read re-encode to the bytes consumed |
| RoundTrip.ConformingEncodes | src/ser.rs:157-247 | every value that conforms to a shape encodes without error |
| RoundTrip.StrHeaderRoundTrip | src/de.rs:28-49 | the header of an encoded string is read back as its length and padding |
| RoundTrip.ByteStringRoundTrip | src/de.rs:51-79 | an encoded string or byte string is read back whole, with or without the canonicity extension |
| RoundTrip.DecodeEncoded | tests/regression_tests.rs:309-321 | decoding the encoding of a conforming value with its own hints in front gives the value, consumes exactly the encoding and leaves the remaining hints |
| RoundTrip.DecodeBool | src/de.rs:137-155 | the same for a bool |
| RoundTrip.DecodeInt | src/de.rs:157-165 | the same for an integer |
| RoundTrip.DecodeByteString | src/de.rs:176-206 | the same for a string or byte string |
| RoundTrip.DecodeUnitStruct | src/de.rs:220-224 | a unit struct consumes no bytes and no hints |
| RoundTrip.DecodeNewtype | src/de.rs:226-230 | the same for a newtype struct |
| RoundTrip.ElemsDecode | src/de.rs:309-319 | encoded elements are read back one by one, consuming exactly their encodings and their hints |
| RoundTrip.EntriesDecode | src/de.rs:344-360 | the same for key/value pairs |
| RoundTrip.FieldsDecode | src/de.rs:240-250 | the same for the fields of a tuple or struct |
| RoundTrip.ValuesDecode | src/de.rs:356-360 | the same starting at a value: encoded values and keys are read back, consuming exactly their encodings |
| RoundTrip.ElemsCons | src/de.rs:309-319 | an element read back in front of the elements read back after it is one more element read, its hints taken first |
| RoundTrip.EntriesCons | src/de.rs:344-360 | the same for a key in front of the values and keys after it |
| RoundTrip.ValuesCons | src/de.rs:356-360 | the same for a value in front of the entries after it |
| RoundTrip.FieldsCons | src/de.rs:240-250 | the same for a field in front of the remaining fields |
| RoundTrip.DecodeSeq | src/de.rs:232-238 | the same for a sequence: the count and then each element |
| RoundTrip.SeqBodyDecodes | src/de.rs:232-238 | the count in front of an encoded sequence reads back as its length, and the elements after it read back up to the end of the encoding |
| RoundTrip.DecodeMap | src/de.rs:252-258 | the same for a map |
| RoundTrip.DecodeTuple | src/de.rs:240-264 | the same for a tuple or struct |
| RoundTrip.DecodeUnitVariant | src/de.rs:394-396 | a unit variant consumes no bytes and one hint |
| RoundTrip.DecodeNewtypeVariant | src/de.rs:398-402 | the same for a newtype variant |
| RoundTrip.DecodeFieldsVariant | src/de.rs:404-414 | the same for a tuple or struct variant |
| RoundTrip.FromBytesToBytes | tests/regression_tests.rs:309-321 | from_bytes of to_bytes gives the value back, whatever bytes follow |
| Vectors.EmptyStringEncoding | tests/regression_tests.rs:256 | the empty string encodes as four zero bytes |
| Vectors.Success1RoundTrips | tests/fuzz_regressions.rs:58 | the fuzz input decodes to the empty string, and the four bytes it consumes are that string's encoding |
| Vectors.TrueEncoding | tests/regression_tests.rs:133 | true encodes as [181,117,114,153] |
| Vectors.FalseEncoding | tests/regression_tests.rs:251 | false encodes as [55,151,121,188] |
| Vectors.BeeEncoding | tests/regression_tests.rs:248 | "bee" encodes as [3,98,101,101], with no padding |
| Vectors.SizeEncoding | tests/regression_tests.rs:134 | the usize 57 encodes as eight little-endian bytes |
| Vectors.RawInfoEncoding | tests/regression_tests.rs:135 | a four-byte buffer encodes as its length byte, the bytes and three zero bytes |
| Vectors.FooEncoding | tests/regression_tests.rs:125-136 | Foo encodes to its bare golden bytes |
| Vectors.FooDecoding | tests/regression_tests.rs:309-314 | Foo's golden bytes decode to Foo |
| Vectors.Int32Encoding | tests/regression_tests.rs:187-189 | a 32-bit-wire integer encodes as its value modulo 2^32 in four bytes |
| Vectors.CoordinateEncodings | tests/regression_tests.rs:172-176 | the golden words -35000, 846 and 1029748 |
| Vectors.Point3IEncoding | tests/regression_tests.rs:170-176 | Point3I encodes to its golden bytes |
| Vectors.WrapperEncoding | tests/regression_tests.rs:185-189 | Wrapper(-32768) encodes as the sign-extended word [0,128,255,255] |
| Vectors.Point3IDecoding | tests/regression_tests.rs:172-176 | Point3I's golden bytes decode to Point3I |
| Vectors.WrapperDecoding | tests/regression_tests.rs:187-189 | Wrapper's golden bytes decode to Wrapper |
| Vectors.DecodesFromItsEncoding | tests/regression_tests.rs:309-321 | a value of a Rust type reads back from exactly its encoding, given exactly its hints |
| Vectors.BoxedBytes | src/wrappers.rs:15-19 | a boxed value writes its id's four little-endian bytes, then the inner bytes |
| Vectors.BoxedConforms | src/wrappers.rs:15-19 | a boxed value is a (u32, T) pair and needs exactly the hints of the value inside |
| Vectors.FooIdBytes | tests/regression_tests.rs:139 | the id 0xdeadbeef is written as [0xef,0xbe,0xad,0xde] |
| Vectors.FooBoxedEncoding | tests/regression_tests.rs:138-143 | boxed Foo encodes to its golden bytes, and its size is predicted as their length |
| Vectors.FooBoxedDecoding | tests/regression_tests.rs:366-372 | boxed Foo's golden bytes decode to it without hints |
| Vectors.Point3IIdBytes | tests/regression_tests.rs:178-183 | the id 0xb01dface is written as [0xce,0xfa,0x1d,0xb0] |
| Vectors.Point3IConforms | tests/regression_tests.rs:73-75 | Point3I is a value of its three-i32 struct and needs no hints |
| Vectors.Point3IBoxedEncoding | tests/regression_tests.rs:178-183 | boxed Point3I encodes to its golden bytes, and its size is predicted as their length |
| Vectors.Point3IBoxedDecoding | tests/regression_tests.rs:404-410 | boxed Point3I's golden bytes decode to it without hints |
| Vectors.WrapperIdBytes | tests/regression_tests.rs:191-194 | the id 0xca11ab1e is written as [0x1e,0xab,0x11,0xca] |
| Vectors.WrapperBoxedEncoding | tests/regression_tests.rs:191-194 | boxed Wrapper encodes to its golden bytes, and its size is predicted as their length |
| Vectors.WrapperBoxedDecoding | tests/regression_tests.rs:423-429 | boxed Wrapper's golden bytes decode to it without hints |
| Vectors.NothingBoxedEncoding | tests/regression_tests.rs:198-202 | the unit struct Nothing encodes as nothing bare and as its id alone boxed, and its size is predicted as 4 |
| Vectors.NothingBoxedDecoding | tests/regression_tests.rs:442-448 | no bytes decode to Nothing bare, and its id alone decodes to boxed Nothing, without hints |
| Vectors.CLikeBConforms | tests/regression_tests.rs:85-93 | CLike::B is a value of CLike and needs the hint ["B"] |
| Vectors.CLikeBBoxedEncoding | tests/regression_tests.rs:206-208 | boxed CLike::B encodes as its id alone, predicted at 4 bytes |
| Vectors.CLikeBBoxedDecoding | tests/regression_tests.rs:452-458 | the id alone decodes to boxed CLike::B with the hint ["B"] |
| Vectors.BlobConforms | tests/regression_tests.rs:95-123 | Cafebabe::Blob is a value of Cafebabe<i16> and needs the hint ["Blob"] |
| Vectors.CafebabeBlobBoxedEncoding | tests/regression_tests.rs:268-272 | boxed Cafebabe::Blob encodes as its id alone, predicted at 4 bytes |
| Vectors.CafebabeBlobBoxedDecoding | tests/regression_tests.rs:482-488 | the id alone decodes to boxed Cafebabe::Blob with the hint ["Blob"] |
| Vectors.QuuxConforms | tests/regression_tests.rs:95-123 | Cafebabe::Quux(CLike::C) is a value of Cafebabe<u16> and needs the hints ["Quux", "C"] |
| Vectors.CafebabeQuuxBoxedEncoding | tests/regression_tests.rs:274-278 | boxed Cafebabe::Quux(CLike::C) encodes as the id of Quux alone, predicted at 4 bytes |
| Vectors.CafebabeQuuxBoxedDecoding | tests/regression_tests.rs:492-498 | that id decodes to boxed Cafebabe::Quux(CLike::C) with the hints ["Quux", "C"] |
| Vectors.CLikeAConforms | tests/regression_tests.rs:85-93 | boxed CLike::A is a value of Boxed<CLike> and needs the hint ["A"] |
| Vectors.CLikeABoxedEncoding | tests/regression_tests.rs:282-285 | boxed CLike::A encodes as its id alone, sized at 4 bytes |
| Vectors.SpamConforms | tests/regression_tests.rs:95-123 | Cafebabe::Spam(Boxed::new(CLike::A)) is a value of Cafebabe<Vec<String>> and needs the hints ["Spam", "A"] |
| Vectors.SpamIdBytes | tests/regression_tests.rs:282-285 | the id 0xf01dab1e is written as [0x1e,0xab,0x1d,0xf0] |
| Vectors.CafebabeSpamBoxedEncoding | tests/regression_tests.rs:280-285 | boxed Cafebabe::Spam encodes as the id of Spam then the id of CLike::A, predicted at 8 bytes |
| Vectors.CafebabeSpamBoxedDecoding | tests/regression_tests.rs:502-508 | those eight bytes decode to boxed Cafebabe::Spam with the hints ["Spam", "A"] |
| Vectors.Int64Encoding | tests/regression_tests.rs:247 | a 64-bit-wire integer encodes as its value modulo 2^64 in eight little-endian bytes |
| Vectors.Int64Bytes | tests/regression_tests.rs:247 | a 64-bit-wire integer encodes as the eight bytes whose little-endian word is its value modulo 2^64 |
| Vectors.U64MaxEncoding | tests/regression_tests.rs:247 | u64::MAX encodes as eight 255 bytes |
| Vectors.MinusOneEncoding | tests/regression_tests.rs:257 | -1 as an i64 encodes as eight 255 bytes |
| Vectors.MaxI64Encoding | tests/regression_tests.rs:259 | i64::MAX encodes as seven 255 bytes and 127 |
| Vectors.NegativeI64Encoding | tests/regression_tests.rs:261 | -1048576 encodes as [0,0,240,255,255,255,255,255] |
| Vectors.ZeroI64Encoding | tests/regression_tests.rs:263 | 0 encodes as eight zeros |
| Vectors.PositiveI64Encoding | tests/regression_tests.rs:265 | 8024735636555 encodes as [75,92,132,103,76,7,0,0] |
| Vectors.ShortStringEncoding | tests/regression_tests.rs:256-264 | a string of at most 253 bytes encodes as a length byte, the bytes and the padding to a word |
| Vectors.OtherEncoding | tests/regression_tests.rs:258 | "OtHeR" encodes with a length byte 5 and two bytes of padding |
| Vectors.QwertyEncoding | tests/regression_tests.rs:260 | "QWERTY" encodes with a length byte 6 and one byte of padding |
| Vectors.SomethingEncoding | tests/regression_tests.rs:262 | "something" encodes with a length byte 9 and two bytes of padding |
| Vectors.KonnichiwaEncoding | tests/regression_tests.rs:264 | the fifteen UTF-8 bytes of "こんにちは" encode after a length byte 15, with no padding |
| Vectors.ElemsBytes | tests/regression_tests.rs:245-265 | elements that encode to given pieces encode together to those pieces concatenated in order, while the announced count allows them |
| Vectors.EntriesBytes | tests/regression_tests.rs:255-265 | keys and values that encode to given pieces encode together to those pieces concatenated in order, while the announced count allows the keys |
| Vectors.SeqBytes | tests/regression_tests.rs:250 | a sequence of known length encodes as its length as a u32, then its elements |
| Vectors.MapBytes | tests/regression_tests.rs:255 | a map of known length encodes as its entry count as a u32, then its entries |
| Vectors.BazEntryEncodings | tests/regression_tests.rs:256-265 | each of the ten keys and values of the map, in key order, encodes to its piece of the golden bytes |
| Vectors.BazMappingEncoding | tests/regression_tests.rs:255-265 | the map encodes as its entry count 5 as a u32, then key, value, key, value in key order |
| Vectors.BazPayloadEncoding | tests/regression_tests.rs:250-253 | vec![false, true, false] encodes as its count 3, then the ids of false, true and false |
| Vectors.BazFieldsEncoding | tests/regression_tests.rs:246-265 | the four fields of Baz encode one after the other, with no count in front |
| Vectors.CafebabeBazEncoding | tests/regression_tests.rs:232-243 | Cafebabe::Baz bare encodes as its four fields alone |
| Vectors.CafebabeBazBoxedEncoding | tests/regression_tests.rs:245-266 | boxed Cafebabe::Baz encodes to its 124 golden bytes: the id of Baz, then the fields |
| Vectors.CafebabeBazBoxedSize | tests/regression_tests.rs:232-266 | Cafebabe::Baz has a size hint, the size predicted for it boxed is the length of its golden bytes, and that length is a multiple of 4 |
| Vectors.KonnichiwaIsValid | tests/regression_tests.rs:240 | the bytes of "こんにちは" are well-formed UTF-8 |
| Vectors.EntriesConform | tests/regression_tests.rs:236-242 | a run of entries alternating between conforming keys and conforming values conforms to the map's key and value types and needs no hints |
| Vectors.FieldsConform | tests/regression_tests.rs:108-113 | fields that each conform to their type and need no hints conform to the list of field types |
| Vectors.FieldsVariantConforms | tests/regression_tests.rs:107-114 | a fields variant whose fields conform to the variant's field types is a value of the enum and needs exactly the hint of its own name |
| Vectors.MapConforms | tests/regression_tests.rs:236-242 | a map of known length whose entries alternate between conforming keys and values is a value of the map type |
| Vectors.BazKeysConform | tests/regression_tests.rs:236-242 | the five map keys are valid strings short enough for the wire, and name no variants |
| Vectors.BazValuesConform | tests/regression_tests.rs:236-242 | the five map values are in range for an i64 |
| Vectors.BazEntriesAlternate | tests/regression_tests.rs:236-242 | the map's entries, in key order, alternate between its keys and its values |
| Vectors.BazMappingConforms | tests/regression_tests.rs:236-242 | the mapping is a value of BTreeMap<String, i64> and needs no hints |
| Vectors.BazPayloadConforms | tests/regression_tests.rs:235 | the payload is a Vec<bool> of three elements, announced as three |
| Vectors.BazVariant | tests/regression_tests.rs:107-114 | in Cafebabe<T>, Baz is the second variant, with a u64, a string, a T and a string-to-i64 map as fields |
| Vectors.BazFieldsConform | tests/regression_tests.rs:232-243 | each of the four fields of Cafebabe::Baz conforms to its declared type and needs no hints |
| Vectors.BazConforms | tests/regression_tests.rs:232-243 | Cafebabe::Baz is a value of Cafebabe<Vec<bool>> and needs the hint ["Baz"] |
| Vectors.CafebabeBazBoxedDecoding | tests/regression_tests.rs:472-479 | the golden bytes decode to boxed Cafebabe::Baz with the hint ["Baz"], with or without the canonicity extension |
| Vectors.Fail1AsWritten | tests/fuzz_regressions.rs:62 | src/de.rs as written accepts the fuzz input with non-zero padding, although it is not the encoding of the string it yields |
| Vectors.Fail1Canonical | tests/fuzz_regressions.rs:62 | with the canonicity extension the input is refused with NonZeroBytesPadding |
| Vectors.Fail2AsWritten | tests/fuzz_regressions.rs:63 | src/de.rs as written accepts a 0xFE header announcing 0 bytes |
| Vectors.Fail2Canonical | tests/fuzz_regressions.rs:63 | with the canonicity extension the input is refused with BytesLenPrefix254LessThan254(0) |
| Sized.IntSize | src/sized.rs:13-22 | the size of an integer kind is its encoded width |
| Sized.Sizable | src/sized.rs:56-160 | the Rust types with a size: char and the options have none, () has one |
| Sized.SizeHint | src/sized.rs:36-190 | corrected (strings through Sized.StrSizeHint): every size hint is a multiple of 4, and the only errors are SeqTooLong and StringTooLong |
| Sized.UsizeIsLong | src/sized.rs:56-65 | usize is sized as max(word, int) bytes, 8 on the 64-bit platform |
| Sized.StrSizeHintAsWritten | src/sized.rs:78-92 | as written: the hint fails exactly when the length exceeds 0xFFFFFF, with StringTooLong(len) |
| Sized.StrSizeHint | src/sized.rs:78-92 | corrected: the same error cases; a success is a multiple of 4 and exceeds the length |
| Sized.StrSizeHintExact | src/sized.rs:78-92 | the corrected hint succeeds exactly when the encoder does, with the encoded length, and fails with the encoder's error |
| Sized.StrSizeHintAsWrittenShort | src/sized.rs:82-88 | as written the hint is right up to 253 bytes and beyond 0xFFFFFF, and from 254 to 0xFFFFFF bytes it is 4 less than the encoded length |
| Sized.StrSizeHintAsWrittenCounterexample | src/sized.rs:84-85 | a 254-byte string is hinted at 256 bytes but encodes as 260 |
| Sized.SeqSizeHint | src/sized.rs:100-113 | a sequence longer than u32 fails with SeqTooLong; a success is a multiple of 4, at least the 4 bytes of the count; an error is SeqTooLong or StringTooLong |
| Sized.SumSizes | src/sized.rs:105-111 | the sum never falls below the starting value and keeps a 4-aligned start aligned; an error is SeqTooLong or StringTooLong |
| Sized.UnitSizedButRefused | src/sized.rs:156-160 | () is sized 0 though the encoder refuses it |
| Sized.SizeHintIsEncodedLength | tests/regression_tests.rs:323-328 | for every conforming value the size hint is the length of its encoding |
| Sized.SeqSizeExact | src/sized.rs:100-119 | the same for a sequence: 4 plus the element sizes |
| Sized.MapSizeExact | src/sized.rs:121-154 | the same for a map: 4 plus the key and value sizes |
| Sized.NewtypeVariantSizeExact | src/sized.rs:162-190 | the same for a newtype variant |
| Sized.FieldsVariantSizeExact | src/sized.rs:162-190 | the same for a tuple or struct variant |
| Sized.SliceSizeHint | src/sized.rs:100-119 | the loop checks the length, then adds 4 and every element's size, stopping at the first error |
| Sized.MapSizeHint | src/sized.rs:121-154 | the loop checks the length, then adds 4 and every key and value size |
| Sized.TupleSizeHint | src/sized.rs:162-190 | the loop adds every component's size, with no header |
| Identifiable.AllTypeIds | src/identifiable.rs:140-243 | every type lists at least one id and no id twice; bool lists its true id then its false id |
| Identifiable.TypeOf | src/identifiable.rs:103-207 | & and Box values have & and Box types, an integer value its kind's type and a float its float type |
| Identifiable.Unwrapped | src/identifiable.rs:103-137 | the type behind any & and Box is neither, and has the same ids |
| Identifiable.AllEnumVariantNames | src/identifiable.rs:140-243 | only bool, possibly behind & or Box, has variant names: ["false","true"] |
| Identifiable.TypeId | src/identifiable.rs:85-91 | the id of every value is among its type's ids |
| Identifiable.EnumVariantId | src/identifiable.rs:93-99 | a value has a variant id exactly when its type lists variant names, and the id is among them |
| Identifiable.DelegationToTarget | src/identifiable.rs:103-137 | & and Box report everything exactly as the value behind them |
| Identifiable.BoolTablesInOppositeOrder | src/identifiable.rs:140-163 | the id table and the name table of bool list the two values in opposite orders |
| Identifiable.BoolIdsDistinct | src/identifiable.rs:149-154 | true and false get different ids |
| Common.BoolIdsAsSigned | src/common.rs:6-7 | the signed constants are 32-bit values whose two's-complement patterns are the bool ids, and back |
| Ints.InterpretPattern | src/de.rs:83-111 | an in-range integer read back from its pattern is itself |
| Ints.WireWidens | src/ser.rs:26-32 | widening to the wire kind keeps every in-range value in range |
| Utils.SafeIntCast | src/utils.rs:8-13 | succeeds with n unchanged exactly when n fits the target kind, otherwise fails with IntegerCast(n) |
| Utils.CheckSeqLen | src/utils.rs:22-26 | succeeds exactly when the length fits a u32, otherwise fails with SeqTooLong(len) |
| Wrappers.NewBoxed | src/wrappers.rs:21-28 | records the inner value's type id and keeps the value unchanged |
| Wrappers.NewWithSize | src/wrappers.rs:65-74 | succeeds exactly when the size hint succeeds and fits a u32; then records that size; a failing hint's error propagates and a too-large size fails with IntegerCast |
| Wrappers.NewBoxedWithSize | src/wrappers.rs:116-126 | records type id and size as a u32, with the same failures |
| Wrappers.NewBoxedWithLength | src/boxed.rs:62-72 | records type id and the size hint as a usize; it fails exactly when the hint does |
| Wrappers.BoxedSetInner | src/wrappers.rs:30-43 | replacing the inner value leaves the id untouched |
| Wrappers.WithSizeSetInner | src/wrappers.rs:76-89 | replacing the inner value leaves the size untouched |
| Wrappers.BoxedWithSizeSetInner | src/wrappers.rs:128-141 | replacing the inner value leaves id and size untouched |
| Wrappers.BoxedWithLengthSetInner | src/boxed.rs:74-87 | replacing the inner value leaves id and size untouched |
| Wrappers.BoxedSizeHint | src/wrappers.rs:46-53 | 4 bytes of id plus the inner size; the inner error propagates |
| Wrappers.WithSizeSizeHint | src/wrappers.rs:92-99 | 4 bytes of size plus the inner size |
| Wrappers.BoxedWithSizeSizeHint | src/wrappers.rs:144-152 | 4 + 4 plus the inner size |
| Wrappers.BoxedWithLengthSizeHint | src/boxed.rs:90-97 | 4 bytes of id + 8 bytes of usize plus the inner size |
| Wrappers.BoxedEncoding | src/wrappers.rs:15-19 | a boxed value encodes as its id in four little-endian bytes followed by the inner encoding |
| Wrappers.WithSizeEncoding | src/wrappers.rs:56-63 | the size as a u32, then the inner encoding |
| Wrappers.BoxedWithSizeEncoding | src/wrappers.rs:102-114 | the id, the size as a u32, then the inner encoding |
| Wrappers.BoxedWithLengthEncoding | src/boxed.rs:52-60 | the id, the size as eight bytes, then the inner encoding |
| Wrappers.BoxedSizeIsEncodedLength | src/wrappers.rs:46-53 | the predicted size of a boxed conforming value is its encoded length |
| Wrappers.WithSizeSizeIsEncodedLength | src/wrappers.rs:92-99 | the same for WithSize |
| Wrappers.BoxedWithSizeSizeIsEncodedLength | src/wrappers.rs:144-152 | the same for BoxedWithSize |
| Wrappers.BoxedWithLengthSizeIsEncodedLength | src/boxed.rs:90-97 | the same for BoxedWithLength |
| Wrappers.NewWithSizeAnnouncesInner | src/wrappers.rs:65-74 | a fresh WithSize of a conforming value exists exactly when the encoding fits a u32, and its size field is the inner encoding's length |
| Wrappers.NewBoxedWithSizeAnnouncesInner | src/wrappers.rs:116-126 | the same for BoxedWithSize, with the id in front |
| Wrappers.SetInnerCanStaleTheSize | src/wrappers.rs:82-85 | inner_mut can leave a size field that no longer matches the inner value |
| Helpers.UnsizedSizeHint | src/helpers.rs:160-165 | the length rounded up to the next multiple of 16 |
| Helpers.Padded | src/helpers.rs:36-65 | the buffer followed by zeros up to that rounded length |
| Helpers.UnsizedBytes | src/helpers.rs:33-68 | the bytes written are the padded buffer with no length prefix, whose length is the size hint; a chunk count above u32 fails with IntegerCast |
| Helpers.PaddedIdempotent | src/helpers.rs:160-165 | padding a padded buffer changes nothing |
| Helpers.ChunkOfPadded | src/helpers.rs:45-61 | each u64 chunk, the last one zero-extended, is eight bytes of the padded buffer |
| Helpers.ChunkValue | src/helpers.rs:45-61 | each chunk read is a u64 |
| Helpers.ReadChunk | src/helpers.rs:45-61 | reads a full chunk, or the zero-extended remainder, or 0 when nothing is left, and drops what it read |
| Helpers.SerializeUnsized | src/helpers.rs:33-68 | the loop writes exactly the padded buffer as little-endian u64s, or fails with the error of announcing a chunk count above u32 |
| Helpers.SerializeChunk | src/helpers.rs:45-65 | one turn of the loop appends the next eight bytes of the padded buffer and moves what is left to read on by eight bytes |
| Helpers.UnsizedAt | src/helpers.rs:123-126 | the seed reads the padded length of bytes when they are there, and fails with UnexpectedEof otherwise |
| Helpers.U64At | src/helpers.rs:106-120 | each u64 element read is the eight little-endian bytes at the cursor |
| Helpers.DeserializeUnsized | src/helpers.rs:94-127 | the visitor loop appends each u64 read and gives the padded length of input bytes |
| Helpers.UnsizedRoundTrip | tests/regression_tests.rs:55-71 | decoding an unsized buffer with the seed of its length gives the buffer zero-padded to a multiple of 16 |
| Helpers.EncryptedDataPadding | tests/regression_tests.rs:150-158 | the 19-byte test buffer encodes with 13 zero bytes of padding, the same as its padded form |
| DeriveExt.CollectResults | serde_mtproto_derive/src/ext.rs:9-24 | the loop keeps every success and every error in order, and returns the successes exactly when there are no errors |
| DeriveExt.Collected | serde_mtproto_derive/src/ext.rs:9-24 | a success exactly when every result is one, and then the payloads in order; otherwise the non-empty list of every error's payload, in order (Errs) |
| DeriveExt.EachResultOnce | serde_mtproto_derive/src/ext.rs:13-18 | each result lands in exactly one of the two lists |
| DeriveExt.NoErrorsMeansAllOk | serde_mtproto_derive/src/ext.rs:13-21 | there are no errors exactly when every result is a success, and then the successes are the payloads in order |
| DeriveExt.AllErrors | serde_mtproto_derive/src/ext.rs:16-23 | when every result is an error, the errors are all the payloads in order |
| DeriveExt.AnyErrorFails | serde_mtproto_derive/src/ext.rs:20-23 | one error makes the whole an error that includes it |
| DeriveExt.NoInputNoErrors | serde_mtproto_derive/src/ext.rs:20-21 | no input gives Ok([]) |
| DeriveIdentifiable.DigitsValue | serde_mtproto_derive/src/identifiable.rs:191-199 | the digits have a value exactly when every one is below the radix |
| DeriveIdentifiable.FromStrRadix | serde_mtproto_derive/src/identifiable.rs:191-199 | a number is read exactly when, after an optional '+', the digits are non-empty and valid and their value fits a u32 |
| DeriveIdentifiable.ParseIdLiteral | serde_mtproto_derive/src/identifiable.rs:191-199 | a literal parses only when digits follow its prefix: a bare "0x", "0b" or "0o" never parses |
| DeriveIdentifiable.NumeralValue | serde_mtproto_derive/src/identifiable.rs:191-199 | the digits printed for n in a radix read back as n |
| DeriveIdentifiable.FromStrRadixReadsNumerals | serde_mtproto_derive/src/identifiable.rs:191-199 | every u32 written in the radix, with or without '+', parses back |
| DeriveIdentifiable.FromStrRadixRefusesOverflow | serde_mtproto_derive/src/identifiable.rs:191-199 | a numeral above u32 fails |
| DeriveIdentifiable.FromStrRadixRefusesBadDigit | serde_mtproto_derive/src/identifiable.rs:191-199 | a digit not below the radix fails |
| DeriveIdentifiable.ParsePrefixed | serde_mtproto_derive/src/identifiable.rs:191-194 | "0x", "0b" or "0o" followed by a u32 in that radix parses to it |
| DeriveIdentifiable.ParseDecimal | serde_mtproto_derive/src/identifiable.rs:195-199 | a decimal numeral without prefix parses to its value |
| DeriveIdentifiable.ParseIdLiteralRefuses | serde_mtproto_derive/src/identifiable.rs:191-199 | "0x" with no digits, "0b2" and the empty string fail |
| DeriveIdentifiable.TestIds | tests/regression_tests.rs:32-75 | the test ids "0xdeadbeef" and "0xb01dface" parse to those numbers |
| DeriveIdentifiable.DeadbeefId | tests/regression_tests.rs:32-75 | the test id "0xdeadbeef" parses to 0xdeadbeef |
| DeriveIdentifiable.B01dfaceId | tests/regression_tests.rs:32-75 | the test id "0xb01dface" parses to 0xb01dface |
| DeriveIdentifiable.HexId | serde_mtproto_derive/src/identifiable.rs:190-192 | "0x" and eight hexadecimal digits parse to the value of the first four times 0x10000 plus the value of the last four |
| DeriveIdentifiable.IdIn | serde_mtproto_derive/src/identifiable.rs:183-189 | finds a literal exactly when some nested item is an id |
| DeriveIdentifiable.IdFromAttrs | serde_mtproto_derive/src/identifiable.rs:173-218 | a missing id gives the missing-attribute error, a non-string id the not-a-string error, and a string gives the id exactly when it parses |
| DeriveIdentifiable.FirstIdAttributeWins | serde_mtproto_derive/src/identifiable.rs:177-187 | the first id attribute is the one used |
| DeriveIdentifiable.NoIdMeansMissing | serde_mtproto_derive/src/identifiable.rs:207-217 | attributes without an id give the missing-attribute error |
| DeriveIdentifiable.AssertedIdFromAttrs | serde_mtproto_derive/src/identifiable.rs:134-171 | the id's error comes first, then the mode's; otherwise the id with its check mode |
| DeriveIdentifiable.DefaultModeIsAlways | serde_mtproto_derive/src/identifiable.rs:141-170 | without a check_type_id attribute the mode is always |
| DeriveIdentifiable.CheckModeIn | serde_mtproto_derive/src/identifiable.rs:141-170 | the search in one attribute never panics, and its only compile error is the wrong-arity one |
| DeriveIdentifiable.CheckModeFrom | serde_mtproto_derive/src/identifiable.rs:141-170 | the same over all attributes; without mtproto attributes the mode is always |
| DeriveIdentifiable.CheckModeWords | serde_mtproto_derive/src/identifiable.rs:148-165 | the three mode words select their modes, a wrong arity is an error, and an unknown word falls back to always |
| DeriveIdentifiable.TypeIdCall | serde_mtproto_derive/src/identifiable.rs:56-79 | type_id returns the id, panicking only when the id is not listed and the mode checks in this build |
| DeriveIdentifiable.Collect | serde_mtproto_derive/src/identifiable.rs:26-41 | ids and names are collected in order when all expand; a panic anywhere is a panic |
| DeriveIdentifiable.ImplIdentifiable | serde_mtproto_derive/src/identifiable.rs:16-132 | an expansion lists one type_id arm per id, with the same id; a struct gets one id and no variant names; an enum gets one id and one variant name per variant, and the same names for both tables |
| DeriveIdentifiable.StructImpl | serde_mtproto_derive/src/identifiable.rs:26-79 | a struct gets a one-element id list and no variant names |
| DeriveIdentifiable.EnumImpl | serde_mtproto_derive/src/identifiable.rs:26-103 | an enum gets one id per variant and its variant names in declaration order |
| DeriveIdentifiable.EnumMissingId | serde_mtproto_derive/src/identifiable.rs:26-41 | a variant without an id makes the derive fail |
| DeriveIdentifiable.DerivedTypeIdIsListed | serde_mtproto_derive/src/identifiable.rs:56-79 | every generated type_id is in all_type_ids, so no mode's check fires |
| DeriveIdentifiable.EnumImplAny | serde_mtproto_derive/src/identifiable.rs:56-79 | an enum's type_id arms and id list agree one for one |
| DeriveMtIdentifiable.OldParserAgrees | serde_mtproto_derive/src/mt_proto_identifiable.rs:172-180 | the older starts_with dispatch parses every string as the newer one does |
| DeriveMtIdentifiable.ParseIdLiteralOld | serde_mtproto_derive/src/mt_proto_identifiable.rs:172-180 | a literal parses only when digits follow its prefix |
| DeriveMtIdentifiable.OldIdFromAttrs | serde_mtproto_derive/src/mt_proto_identifiable.rs:159-199 | never a compile error: the id when the first plain id attribute is a parsable string, a panic otherwise |
| DeriveMtIdentifiable.GetIdFromAttrs | serde_mtproto_derive/src/mt_proto_identifiable.rs:159-199 | the search loop returns at the first id attribute, as OldIdFromAttrs describes |
| DeriveMtIdentifiable.OldAssertedId | serde_mtproto_derive/src/mt_proto_identifiable.rs:112-157 | the id with its check mode, defaulting to always |
| DeriveMtIdentifiable.OldCheckMode | serde_mtproto_derive/src/mt_proto_identifiable.rs:112-157 | without a check_type_id attribute the mode is always, and any other mode comes from one of the attributes |
| DeriveMtIdentifiable.GetAssertedIdFromAttrs | serde_mtproto_derive/src/mt_proto_identifiable.rs:112-157 | the search loop returns at the first check_type_id attribute, as OldAssertedId describes |
| DeriveMtIdentifiable.ImplMtProtoIdentifiable | serde_mtproto_derive/src/mt_proto_identifiable.rs:6-110 | the generated tables are those the loops build, and a union panics |
| DeriveMtIdentifiable.OldImplOf | serde_mtproto_derive/src/mt_proto_identifiable.rs:6-110 | never a compile error, and a union panics; an expansion lists one type_id arm per id; a struct gets one id and no variant ids, an enum one id and one variant id per variant |
| DeriveMtIdentifiable.TypeIdArms | serde_mtproto_derive/src/mt_proto_identifiable.rs:31-56 | one type_id arm per variant in order, each with its checked id |
| DeriveMtIdentifiable.EnumVariantIdArms | serde_mtproto_derive/src/mt_proto_identifiable.rs:58-82 | one enum_variant_id arm per variant, giving its name |
| DeriveMtIdentifiable.AllTypeIds | serde_mtproto_derive/src/mt_proto_identifiable.rs:15-29 | one id per variant in order, failing exactly when some variant's id does |
| DeriveMtIdentifiable.OldStructImpl | serde_mtproto_derive/src/mt_proto_identifiable.rs:15-82 | a struct gets a single id and no variant ids |
| DeriveMtIdentifiable.OldEnumImpl | serde_mtproto_derive/src/mt_proto_identifiable.rs:15-82 | an enum gets the ids and names of its variants in order |
| DeriveMtIdentifiable.OldTypeIdIsListed | serde_mtproto_derive/src/mt_proto_identifiable.rs:31-56 | every generated type_id passes its own check |
| DeriveMtIdentifiable.OldFailures | serde_mtproto_derive/src/mt_proto_identifiable.rs:183-198 | a union, a missing id and a non-string id all panic |
| DeriveMtIdentifiable.OldFirstIdWins | serde_mtproto_derive/src/mt_proto_identifiable.rs:160-189 | the first attribute carrying an id is the one used |

## Left out

- Floating point: `serialize_f32/f64`, `deserialize_f32/f64` and `safe_float_cast` are not modelled.
- 128-bit integers are not modelled; only the size table mentions them and the encoder has no path for them.
- I/O: the writer is a byte sequence that methods append to, and the reader is a byte sequence with a cursor. Every short read is the single error UnexpectedEof.
- The decoder never reads past its input; a `Read` that blocks or fails is not modelled.
- Debug logging and the display text of errors are not modelled. `Errors` keeps only the error kinds.
- UTF-8: `Utf8.ValidUtf8` checks the byte patterns only; decoding them to code points is not modelled. Its lemmas cover ASCII, three-byte characters with a lead from E1 to EC, and a lone continuation byte.
- The serde visitor double dispatch is replaced by the `Value` and `Shape` datatypes.
  - Tuple, tuple struct and struct are one constructor, since they take the same path; so are tuple variant and struct variant.
  - `ByteBuf` is `VBytes`.
- `Identifiable.TypeOf` covers bool, the integers, f32/f64 (only their `DOUBLE_ID`), strings, Vec, & and Box.
- `usize` and `isize` are fixed at 64 bits.
- Utils.SafeIntCast: a negative n that does not fit is an IntegerCast error, while src/utils.rs:10 would panic on it. Every caller of `safe_int_cast` in src/utils.rs and src/wrappers.rs passes a usize, so the panic cannot happen there. src/ser.rs and src/de.rs call a `safe_cast` that src/utils.rs does not define, with signed and unsigned cast errors. The model uses this one cast and the single error kind IntegerCast for them too.
- Wrappers: src/wrappers.rs and src/boxed.rs declare the id as `i32`, and the model stores it as a u32. The four bytes written are the same.
- Vectors: `Cafebabe::Bar` (tests/regression_tests.rs:210-230) is not restated, because it holds an f32.
- Vectors: `Message` (tests/regression_tests.rs:145-166) is restated only as the padding of its unsized buffer (`Helpers.EncryptedDataPadding`); its other fields are not.
- De.Deserializer.DeserializeIdentifier: follows the tests' list of hints, consumed front first, with NoEnumVariantId when it runs out. src/de.rs:275 instead unwraps one optional hint that is never consumed, and panics when it is absent.
- Helpers.DeserializeUnsized: requires that rounding the length up to 16 fits a u32 and that the cursor is within the input. The source's u32 arithmetic would overflow or panic beyond that.
- Helpers.ReadChunk: reads a short last chunk as its zero-extended remainder. This assumes that a failed `read_u64` consumes nothing, as the source's fallback relies on.
- Sized.SizeHint: uses the corrected string predictor Sized.StrSizeHint of the src/sized.rs:84-85 Findings row, not the source's. A string of 254 bytes or more is predicted with its four header bytes, so a 254-byte string gives 260 where src/sized.rs gives 256. Wrappers.BoxedSizeHint, WithSizeSizeHint, BoxedWithSizeSizeHint, BoxedWithLengthSizeHint, NewWithSize, NewBoxedWithSize and NewBoxedWithLength inherit the corrected value, and so do the four Wrappers.*SizeIsEncodedLength lemmas and Wrappers.NewWithSizeAnnouncesInner and NewBoxedWithSizeAnnouncesInner. The size lemmas of `Vectors` hold under either predictor, since their strings are all shorter than 254 bytes.
- Wrappers.NewBoxedWithLength: requires the size hint to fit a usize. The source's usize additions would overflow beyond that.
- Wrappers: the inner value is a `Value`, and its type id is a parameter function standing for the `Identifiable` bound. The accessors `inner`, `into_inner` and `inner_mut` are field reads and a field update (the *SetInner functions).
- Wrapper decode validation is not modelled: the error kinds InvalidTypeId, TypeIdMismatch and SizeMismatch are declared but unused in this version of the crate.
- Derive crate: only the decisions are modelled, not the generated tokens. That covers the id parsed, the mode chosen, the tables listed and whether expansion fails or panics.
  - `syn` parsing, `quote!` output and trait-bound insertion are not modelled.
  - `serde_mtproto_derive/src/sized.rs` and `mt_proto_sized.rs` are not part of this model.
  - `ast.rs`, `lib.rs` and `macros.rs` are not part of this model; `ast.rs` rejecting unions is taken as the precondition of `DeriveIdentifiable.ImplIdentifiable`.
- DeriveIdentifiable.ParseIdLiteral: the id string is a sequence of characters. The panic that `split_at(2)` raises inside a multi-byte character is not modelled.
- `src/lib.rs` re-exports, `to_writer`/`from_reader`, the benches, build.rs and the JSON interop test are not modelled.
- The fuzz case `roundtrip_fail3` (tests/fuzz_regressions.rs:64) has no lemma of its own. It announces 4096 elements but supplies about thirty, so it fails at end of input through the same count-then-elements path that `Decoding.ElemsReencode` and `De.UintAt` describe.
- The canonicity extension is an addition: src/de.rs as written reads padding without checking it and accepts any three-byte length after 0xFE. The `canonical` flag selects between the behaviour of this version of the decoder and the one the tests and the declared error kinds ask for.

## Findings

| source | as written | input that shows it | evidently intended | confidence | as-written member | corrected member |
|---|---|---|---|---|---|---|
| src/sized.rs:84-85 | the size of a string of 254 to 0xFFFFFF bytes is len + padding, without the four header bytes | a 254-byte string is hinted at 256 bytes but encodes as 260 | len + padding + 4, the length the encoder writes | high, not executed | Sized.StrSizeHintAsWrittenCounterexample | Sized.StrSizeHintExact |
| src/de.rs:63-64 | the padding after a string is read and discarded without checking that it is zero | tests/fuzz_regressions.rs:62, `00 0a ff f8 …`, decodes to "" | refuse non-zero padding with NonZeroBytesPadding, as the test and the declared error kind expect | high, not executed | Vectors.Fail1AsWritten | Vectors.Fail1Canonical |
| src/de.rs:36-38 | a 0xFE header is accepted whatever length it announces | tests/fuzz_regressions.rs:63, `fe 00 00 00 …`, decodes to "" | refuse a 0xFE header announcing fewer than 254 bytes with BytesLenPrefix254LessThan254 | high, not executed | Vectors.Fail2AsWritten | Vectors.Fail2Canonical |
