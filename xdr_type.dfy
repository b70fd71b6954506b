/** The XDR type contract: every type encodes a value to a byte buffer through a writer,
    decodes one through a reader that must be consumed exactly, and validates input by
    trying to decode it. The buffer is presented raw, as hex text or as base64 text. */
module XdrType {
  import opened Wrappers
  import opened XdrStream
  import Base16
  import Base64

  /** A Node Buffer or a JavaScript string: what toXDR returns and fromXDR accepts. */
  datatype Presentation = Bytes(bytes: seq<byte>) | Text(text: string)

  predicate IsFormat(format: string) {
    format == "raw" || format == "hex" || format == "base64"
  }

  /** Presents a finished buffer in the requested format. */
  function EncodeResult(buffer: seq<byte>, format: string): (r: Result<Presentation, XdrError>)
    ensures r.Success? <==> IsFormat(format)
    ensures !IsFormat(format) ==> r == Failure(InvalidFormat(format))
    ensures format == "raw" ==> r == Success(Bytes(buffer))
    ensures format == "hex" ==> r.Success? && r.value.Text? && |r.value.text| == 2 * |buffer|
    ensures format == "base64" ==> r.Success? && r.value.Text? && |r.value.text| == 4 * ((|buffer| + 2) / 3)
    ensures r.Success? ==> DecodeInput(r.value, format) == Success(Bytes(buffer))
  {
    if format == "raw" then Success(Bytes(buffer))
    else if format == "hex" then
      Base16.DecodeEncode(buffer);
      Success(Text(Base16.Encode(buffer)))
    else if format == "base64" then
      Base64.DecodeEncode(buffer);
      Success(Text(Base64.Encode(buffer)))
    else Failure(InvalidFormat(format))
  }

  /** Turns presented input back into what the reader is built over. Raw input is passed
      through as it is; a buffer given with "hex" or "base64" is copied unchanged, since
      Node ignores the encoding argument for a buffer; text is decoded. */
  function DecodeInput(input: Presentation, format: string): (r: Result<Presentation, XdrError>)
    ensures !IsFormat(format) ==> r == Failure(InvalidFormat(format))
    ensures format == "raw" ==> r == Success(input)
    ensures format != "raw" && r.Success? ==> r.value.Bytes?
    ensures format == "hex" && input.Text? ==>
      (r.Success? <==> |input.text| % 2 == 0 && forall i :: 0 <= i < |input.text| ==> Base16.IsHexDigit(input.text[i]))
    ensures format == "base64" && input.Text? ==> (r.Success? <==> Base64.WellFormed(input.text))
  {
    if format == "raw" then Success(input)
    else if format == "hex" then
      match input
      case Bytes(b) => Success(Bytes(b))
      case Text(t) =>
        Base16.DecodeDefined(t);
        match Base16.Decode(t)
        case Some(b) => Success(Bytes(b))
        case None => Failure(MalformedText)
    else if format == "base64" then
      match input
      case Bytes(b) => Success(Bytes(b))
      case Text(t) =>
        Base64.DecodeDefined(t);
        match Base64.Decode(t)
        case Some(b) => Success(Bytes(b))
        case None => Failure(MalformedText)
    else Failure(InvalidFormat(format))
  }

  /** The static side of a type: its class's read and write, None where the class defines
      none (calling it then throws a TypeError). */
  datatype XdrClass<!V> = XdrClass(read: Option<ReadFn<V>>, write: Option<WriteFn<V>>)

  /** A value instance: itself, its class, and the read and write it carries of its own. */
  datatype XdrInstance<!V> = XdrInstance(self: V, cls: XdrClass<V>, read: Option<ReadFn<V>>, write: Option<WriteFn<V>>)

  /** What encoding a value yields: the write runs first, then the buffer is presented. */
  function Encoded<V>(write: Option<WriteFn<V>>, value: V, format: string): (r: Result<Presentation, XdrError>) {
    match write
    case None => Failure(NotAFunction)
    case Some(w) =>
      match w(value)
      case Failure(e) => Failure(e)
      case Success(buffer) => EncodeResult(buffer, format)
  }

  /** What decoding input yields: the input is materialized first, then read, then the
      reader must have been consumed. */
  function Decoded<V>(read: Option<ReadFn<V>>, input: Presentation, format: string): (r: Result<V, XdrError>) {
    match DecodeInput(input, format)
    case Failure(e) => Failure(e)
    case Success(Text(_)) => Failure(InvalidSource)
    case Success(Bytes(source)) =>
      match read
      case None => Failure(NotAFunction)
      case Some(rd) =>
        match rd(source)
        case Failure(e) => Failure(e)
        case Success(out) =>
          if out.consumed == |source| then Success(out.value)
          else Failure(UnconsumedInput(|source| - out.consumed))
  }

  /** Whether validation accepts the input: decoding it raises nothing. */
  predicate Validated<V>(read: Option<ReadFn<V>>, input: Presentation, format: string) {
    Decoded(read, input, format).Success?
  }

  /** A fresh writer, the write, finalize, then the presentation. */
  method EncodeWith<V>(write: Option<WriteFn<V>>, value: V, format: string) returns (r: Result<Presentation, XdrError>)
    ensures r == Encoded(write, value, format)
  {
    var writer := new XdrWriter();
    if write.None? {
      return Failure(NotAFunction);
    }
    var written := writer.Write(write.value, value);
    if written.Fail? {
      return Failure(written.error);
    }
    var buffer := writer.Finalize();
    assert buffer == [] + write.value(value).value == write.value(value).value;
    r := EncodeResult(buffer, format);
  }

  /** The materialized input, a fresh reader over it, the read, then the check that the
      reader was consumed. */
  method DecodeWith<V>(read: Option<ReadFn<V>>, input: Presentation, format: string) returns (r: Result<V, XdrError>)
    ensures r == Decoded(read, input, format)
  {
    var source := DecodeInput(input, format);
    if source.Failure? {
      return Failure(source.error);
    }
    if source.value.Text? {
      return Failure(InvalidSource);
    }
    var reader := new XdrReader(source.value.bytes);
    if read.None? {
      return Failure(NotAFunction);
    }
    var result := reader.Read(read.value);
    if result.Failure? {
      return result;
    }
    var consumed := reader.EnsureInputConsumed();
    if consumed.Fail? {
      return Failure(consumed.error);
    }
    r := result;
  }

  /** The static toXDR: the class's write applied to the given value. */
  method StaticToXdr<V>(cls: XdrClass<V>, value: V, format: string) returns (r: Result<Presentation, XdrError>)
    ensures r == Encoded(cls.write, value, format)
  {
    r := EncodeWith(cls.write, value, format);
  }

  /** The static fromXDR: the class's read over the materialized input. */
  method StaticFromXdr<V>(cls: XdrClass<V>, input: Presentation, format: string) returns (r: Result<V, XdrError>)
    ensures r == Decoded(cls.read, input, format)
  {
    r := DecodeWith(cls.read, input, format);
  }

  /** The static validateXDR: true exactly when the static fromXDR succeeds; it never fails. */
  method StaticValidateXdr<V>(cls: XdrClass<V>, input: Presentation, format: string) returns (ok: bool)
    ensures ok == Validated(cls.read, input, format)
  {
    var r := StaticFromXdr(cls, input, format);
    ok := r.Success?;
  }

  /** The instance toXDR: the instance's own write applied to itself, or, when it has none,
      its class's static toXDR with the instance as the value. */
  method InstanceToXdr<V>(inst: XdrInstance<V>, format: string) returns (r: Result<Presentation, XdrError>)
    ensures inst.write.None? ==> r == Encoded(inst.cls.write, inst.self, format)
    ensures inst.write.Some? ==> r == Encoded(inst.write, inst.self, format)
  {
    if inst.write.None? {
      r := StaticToXdr(inst.cls, inst.self, format);
      return;
    }
    r := EncodeWith(inst.write, inst.self, format);
  }

  /** The instance fromXDR: the instance's own read, or, when it has none, its class's
      static fromXDR. */
  method InstanceFromXdr<V>(inst: XdrInstance<V>, input: Presentation, format: string) returns (r: Result<V, XdrError>)
    ensures inst.read.None? ==> r == Decoded(inst.cls.read, input, format)
    ensures inst.read.Some? ==> r == Decoded(inst.read, input, format)
  {
    if inst.read.None? {
      r := StaticFromXdr(inst.cls, input, format);
      return;
    }
    r := DecodeWith(inst.read, input, format);
  }

  /** The instance validateXDR: true exactly when the instance's fromXDR succeeds. */
  method InstanceValidateXdr<V>(inst: XdrInstance<V>, input: Presentation, format: string) returns (ok: bool)
    ensures ok == Validated(if inst.read.None? then inst.cls.read else inst.read, input, format)
  {
    var r := InstanceFromXdr(inst, input, format);
    ok := r.Success?;
  }

  /** XdrPrimitiveType: its static read and write are abstract and throw NotImplemented. */
  function PrimitiveType<V(!new)>(): (cls: XdrClass<V>)
    ensures cls.read.Some? && cls.write.Some?
    ensures forall s :: cls.read.value(s) == Failure(NotImplemented)
    ensures forall v :: cls.write.value(v) == Failure(NotImplemented)
  {
    XdrClass(Some((s: seq<byte>) => Failure(NotImplemented)), Some((v: V) => Failure(NotImplemented)))
  }

  /** XdrPrimitiveType.isValid: an un-overridden primitive accepts no value. */
  function PrimitiveIsValid<V>(value: V): (ok: bool)
    ensures !ok
  {
    false
  }

  /** XdrCompositeType as a class: it defines no static read or write; each composite
      type definition brings its own. */
  function CompositeType<V>(): (cls: XdrClass<V>)
    ensures cls.read.None? && cls.write.None?
  {
    XdrClass(None, None)
  }

  /** An instance of XdrCompositeType that overrides nothing. */
  function CompositeInstance<V>(self: V): (inst: XdrInstance<V>)
    ensures inst.self == self
    ensures inst.read.None? && inst.write.None?
    ensures inst.cls.read.None? && inst.cls.write.None?
  {
    XdrInstance(self, CompositeType(), None, None)
  }

  /** XdrCompositeType.isValid: the base composite accepts no value. */
  function CompositeIsValid<V>(inst: XdrInstance<V>, value: V): (ok: bool)
    ensures !ok
  {
    false
  }
}
