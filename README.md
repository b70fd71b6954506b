# XDR type contract, in Dafny

This project models the type-contract layer of a JavaScript XDR (External Data
Representation) library, `src/xdr-type.js`. Every XDR type, primitive or composite,
inherits three operations from the base class `XdrType`:

- `toXDR` runs the type's `write` against a fresh writer, finalizes it into a byte
  buffer and presents the buffer in one of three formats;
- `fromXDR` turns presented input back into bytes, runs the type's `read` over a
  reader on those bytes, and fails unless the reader was consumed to its end;
- `validateXDR` reports whether `fromXDR` would succeed and never fails itself.

Each operation exists twice: as a static method of the type's class and as an instance
method. An instance that has no `write` of its own forwards to its class's static
`toXDR(this, format)`; one that has no `read` of its own forwards to its class's static
`fromXDR(input, format)`. `XdrPrimitiveType` supplies
abstract static `read`/`write` that throw `XdrNotImplementedDefinitionError` and a static
`isValid` that returns false; `XdrCompositeType` supplies only an instance `isValid` that
returns false.

The presentation formats are `"raw"` (the buffer itself), `"hex"` (lower-case base16,
section 8 of RFC 4648, written as Node's `Buffer` writes it) and `"base64"` (section 4
of RFC 4648, padded with `=`). Any other tag throws `InvalidXdrEncodingFormatError`.

Files and modules:

- `wrappers.dfy` (`Wrappers`): the `byte` type, `Option`, `Result` and `Outcome`, which
  stand in for the values and exceptions of the JavaScript code.
- `base16.dfy` (`Base16`): the hex encoder and decoder, with both round trips.
- `base64.dfy` (`Base64`): the base64 encoder and decoder, with both round trips (the
  reverse one for canonical text) and the length law.
- `xdr_stream.dfy` (`XdrStream`): the error kinds, the shapes of a type's `read` and
  `write`, and the writer and reader classes seen through the interface the contract uses.
- `xdr_type.dfy` (`XdrType`): `encodeResult`, `decodeInput`, the class and instance
  descriptors, the specification functions `Encoded` and `Decoded`, the imperative
  `toXDR`/`fromXDR`/`validateXDR` pipeline in both dispatch forms, and the abstract bases.
- `xdr_type_properties.dfy` (`XdrTypeProperties`): what the contract promises: unknown
  formats are refused, input is consumed exactly, values survive a round trip, trailing
  bytes are refused, and the abstract bases encode and decode nothing.
- `xdr_example.dfy` (`XdrExample`): a 32-bit big-endian integer type put through the
  contract, including the value 42 in raw and hex form.

How the JavaScript maps onto the model:

- A type's `write(value, writer)` is a function from the value to the bytes it appends,
  or to the error it throws. A type's `read(reader)` is a function from the reader's
  remaining bytes to the value and the number of bytes taken, never more than there are
  (`ReadFn`).
- A class's static `read`/`write` is `None` when the class defines none. Calling it then
  throws a `TypeError` in JavaScript; the model reports `NotAFunction`.
- `Presentation` is `Bytes` (a `Buffer`) or `Text` (a string). With `"hex"` or `"base64"`,
  Node's `Buffer.from` copies a buffer argument and ignores the encoding, and the model
  does the same. With `"raw"`, a string is passed to the reader unchanged. The reader
  (`src/serialization/xdr-reader.js`, not part of this model) is taken to refuse a source
  that is not bytes (`InvalidSource`).
- Thrown exceptions become `Failure` values. `validateXDR` catches every one of them, so
  it is `Decoded(...).Success?`.

Two consequences of the code's order of operations:

- `XdrCompositeType` defines no static `read` or `write`; its comment at
  src/xdr-type.js:130 leaves them to descendants. The forwarded call therefore throws a
  `TypeError` (`NotAFunction`), not `XdrNotImplementedDefinitionError`
  (`CompositeTypeUndefined`).
- `toXDR` runs the type's `write` before it looks at the format (src/xdr-type.js:16-18,
  59-61). A failing write therefore reports its own error instead of the format error,
  and the abstract primitive reports `NotImplemented` even for a bogus tag
  (`UnknownFormatRejected`, `PrimitiveTypeUnimplemented`). `fromXDR` checks the format
  before `read`.

## Model

| member | source | states |
|---|---|---|
| `Base16.Encode` | src/xdr-type.js:155 | hex output has exactly two characters per byte, each a lower-case hex digit |
| `Base16.Decode` | src/xdr-type.js:168 | a decoded hex text stands for half as many bytes as it has characters |
| `Base16.DecodeDefined` | src/xdr-type.js:168 | hex decoding succeeds exactly on even-length text made of hex digits of either case |
| `Base16.DecodeEncode` | src/xdr-type.js:155-168 | decoding the hex text of any bytes gives those bytes back |
| `Base16.EncodeDecode` | src/xdr-type.js:155-168 | encoding the decoding of even-length lower-case hex text gives the text back |
| `Base64.Encode` | src/xdr-type.js:157 | base64 output has length 4·⌈n/3⌉; it ends in exactly (3 − n mod 3) mod 3 `=` characters, and every other character is from the RFC 4648 section 4 alphabet |
| `Base64.DecodeEncode` | src/xdr-type.js:157-170 | decoding the base64 text of any bytes gives those bytes back |
| `Base64.EncodeDecode` | src/xdr-type.js:157-170 | encoding the decoding of canonical base64 text (no stray bits before the padding) gives the text back |
| `Base64.Decode` | src/xdr-type.js:170 | every accepted base64 text has length 4·⌈n/3⌉ for the n bytes it decodes to |
| `Base64.DecodeDefined` | src/xdr-type.js:170 | base64 decoding succeeds exactly on whole 4-character quanta from the alphabet, with at most two `=` and those only at the end; unused bits before the padding are not checked |
| `XdrStream.XdrWriter.constructor` | src/xdr-type.js:16 | a new writer holds no bytes |
| `XdrStream.XdrWriter.Write` | src/xdr-type.js:17 | running a type's write appends exactly the bytes it produces, or reports its error and appends nothing |
| `XdrStream.XdrWriter.Finalize` | src/xdr-type.js:18 | finalize returns everything appended so far |
| `XdrStream.XdrReader.constructor` | src/xdr-type.js:31 | a new reader is over the given bytes with its cursor at 0 |
| `XdrStream.XdrReader.Read` | src/xdr-type.js:32 | a read over the bytes after the cursor returns its value and advances the cursor by exactly what it took; a failing read leaves the cursor where it was |
| `XdrStream.XdrReader.EnsureInputConsumed` | src/xdr-type.js:33 | passes exactly when the cursor is at the end; otherwise it reports how many bytes trail |
| `XdrType.EncodeResult` | src/xdr-type.js:150-161 | succeeds exactly for raw, hex and base64 and fails with the format error otherwise; raw is the identity; hex and base64 have the promised lengths; `decodeInput` of the result with the same tag gives the buffer back |
| `XdrType.DecodeInput` | src/xdr-type.js:163-174 | raw is the identity; an unknown tag fails with the format error; hex and base64 always yield bytes; hex text is accepted exactly when it has even length and only hex digits; base64 text exactly when it is well-formed |
| `XdrType.EncodeWith` | src/xdr-type.js:16-18 | fresh writer, write, finalize, present: the result is `Encoded`, so a failing write wins over a bad tag |
| `XdrType.DecodeWith` | src/xdr-type.js:31-34 | materialize, fresh reader, read, ensure consumed: the result is `Decoded`, so a bad tag fails before any read |
| `XdrType.StaticToXdr` | src/xdr-type.js:58-62 | the static toXDR encodes the given value with the class's write |
| `XdrType.StaticFromXdr` | src/xdr-type.js:70-75 | the static fromXDR decodes with the class's read and exact consumption |
| `XdrType.StaticValidateXdr` | src/xdr-type.js:83-90 | validation never fails and returns true exactly when the static fromXDR succeeds on the same input and format |
| `XdrType.InstanceToXdr` | src/xdr-type.js:12-19 | an instance without its own write gives exactly its class's static toXDR of itself; otherwise its own write encodes itself |
| `XdrType.InstanceFromXdr` | src/xdr-type.js:27-35 | an instance without its own read gives exactly its class's static fromXDR; otherwise its own read decodes |
| `XdrType.InstanceValidateXdr` | src/xdr-type.js:43-50 | validation never fails and returns true exactly when the instance's fromXDR, dispatched the same way, succeeds |
| `XdrType.PrimitiveType` | src/xdr-type.js:101-115 | the base primitive's static read and static write both exist and throw `XdrNotImplementedDefinitionError` (`NotImplemented`) for every input and every value |
| `XdrType.CompositeType` | src/xdr-type.js:129-130 | the base composite class defines neither a static read nor a static write |
| `XdrType.CompositeInstance` | src/xdr-type.js:129-141 | an instance of the base composite is itself as the value, has no read or write of its own, and its class has none either |
| `XdrType.PrimitiveIsValid` | src/xdr-type.js:124-126 | the base primitive accepts no value |
| `XdrType.CompositeIsValid` | src/xdr-type.js:139-141 | the base composite accepts no value |
| `XdrTypeProperties.UnknownFormatRejected` | src/xdr-type.js:150-174 | with a tag other than raw/hex/base64, decoding fails with the format error whatever the read; encoding fails with it once the write has succeeded, and with the write's own error otherwise |
| `XdrTypeProperties.DecodeConsumesExactly` | src/xdr-type.js:70-74 | decoding a presented buffer succeeds exactly when the read succeeds and takes the whole buffer, and then returns the read's value; a shorter read is reported as trailing bytes |
| `XdrTypeProperties.RoundTrip` | src/xdr-type.js:58-75 | for a type whose read takes back exactly what its write appended, decoding the encoding of a value gives the value back in each of the three formats, and validation accepts the encoding |
| `XdrTypeProperties.TrailingBytesRejected` | src/xdr-type.js:70-74 | for such a type, an encoding with bytes appended fails as trailing data in each format and validation rejects it |
| `XdrTypeProperties.PrimitiveTypeUnimplemented` | src/xdr-type.js:101-115 | the abstract primitive's encoding fails with NotImplemented for every value and tag; its decoding fails with NotImplemented for all well-formed input; validation is always false |
| `XdrTypeProperties.CompositeTypeUndefined` | src/xdr-type.js:129-141 | a base composite instance forwards both calls to a class without read or write: encoding fails with the TypeError, so does decoding of well-formed input, and validation is always false |
| `XdrExample.FortyTwoRaw` | src/xdr-type.js:58-62 | a 4-byte big-endian type writes 42 as the raw bytes 0, 0, 0, 42 |
| `XdrExample.FortyTwoHex` | src/xdr-type.js:58-75 | the hex form of 42 is `0000002a`, and decoding it gives 42 |
| `XdrExample.FortyTwoTrailing` | src/xdr-type.js:70-74 | the raw bytes of 42 with one more byte appended are refused as one trailing byte |

## Left out

- The reader and writer internals (`src/serialization/xdr-reader.js` and
  `src/serialization/xdr-writer.js` are not part of this model): integer packing, byte
  order and 4-byte alignment padding. Only the append/finalize and cursor/consumed
  interface is modelled.
- XdrType.DecodeInput: text that is not well-formed hex or base64 fails with
  `MalformedText`. Node's `Buffer.from` does not throw there. It stops at the first
  invalid hex digit and drops an odd last digit. For base64 it also accepts missing
  padding, the URL-safe alphabet and whitespace. The decoders here accept only what the
  RFC 4648 encoders write, plus upper-case hex digits and non-zero bits before base64
  padding, which Node also accepts (`Base16.DecodeDefined`, `Base64.DecodeDefined`).
- XdrStream.XdrWriter.Write: on a failing write the buffer is left unchanged. A real
  write may append part of its bytes before it throws. Nothing observes this, because
  the writer is then discarded.
- XdrStream.XdrReader.Read: on a failing read the cursor is left unchanged. A real read
  may advance before it throws, and the reader is then discarded.
- XdrType.PrimitiveType and XdrTypeProperties.PrimitiveTypeUnimplemented: stated for
  value types that hold no heap references (`V(!new)`), as `Coherent` and the round-trip
  lemmas are. A quantifier over every value of the type needs this in a function contract.
  Values that are mutable JavaScript objects are not covered.
- The default argument `format = 'raw'`: every operation here takes the tag explicitly.
- Error message strings and the `./errors` module. Errors are the constructors of
  `XdrError`, and the message of `InvalidXdrEncodingFormatError` is reduced to the tag
  it names.
- JavaScript prototype mechanics. This covers `this.constructor`, a truthy `write` or
  `read` that is not a function, and exceptions that are not `Error` objects.
  `validateXDR` catches all of them alike. The model reduces them to the dispatch rule
  and to the failures of `XdrError`.
- `babel.config.js`: build configuration with no runtime behaviour.
