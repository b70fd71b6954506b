/** What the type contract promises its callers: unknown formats are refused, input is
    consumed exactly, values survive a round trip through every format, validation is the
    success of decoding, and the abstract bases refuse to encode or decode. */
module XdrTypeProperties {
  import opened Wrappers
  import opened XdrStream
  import opened XdrType

  /** A format tag other than raw, hex and base64 fails decoding with the format error
      whatever the read would do, since the input is materialized before the read runs;
      encoding fails with it only after the write succeeded, since the write runs first. */
  lemma UnknownFormatRejected<V>(write: Option<WriteFn<V>>, read: Option<ReadFn<V>>, value: V, input: Presentation, format: string)
    requires !IsFormat(format)
    ensures Decoded(read, input, format) == Failure(InvalidFormat(format))
    ensures write.Some? && write.value(value).Success? ==> Encoded(write, value, format) == Failure(InvalidFormat(format))
    ensures write.Some? && write.value(value).Failure? ==> Encoded(write, value, format) == Failure(write.value(value).error)
  {
  }

  /** Decoding a presented buffer succeeds exactly when the read succeeds and takes the
      whole buffer; bytes left after the read are reported as trailing. */
  lemma DecodeConsumesExactly<V>(read: ReadFn<V>, buffer: seq<byte>, format: string)
    requires IsFormat(format)
    ensures var d := Decoded(Some(read), EncodeResult(buffer, format).value, format);
      (d.Success? <==> read(buffer).Success? && read(buffer).value.consumed == |buffer|) &&
      (d.Success? ==> d.value == read(buffer).value.value) &&
      (read(buffer).Success? && read(buffer).value.consumed < |buffer| ==>
        d == Failure(UnconsumedInput(|buffer| - read(buffer).value.consumed)))
  {
  }

  /** A type whose read, over any bytes that begin with what its write produced for a
      value, takes exactly those bytes and gives back that value. */
  ghost predicate Coherent<V(!new)>(cls: XdrClass<V>) {
    cls.read.Some? && cls.write.Some? &&
    forall v, s :: cls.write.value(v).Success? && cls.write.value(v).value <= s ==>
      cls.read.value(s) == Success(Readout(v, |cls.write.value(v).value|))
  }

  /** For a coherent type, decoding what encoding produced gives the value back, in every
      supported format, and validation accepts it. */
  lemma RoundTrip<V(!new)>(cls: XdrClass<V>, value: V, format: string)
    requires Coherent(cls) && IsFormat(format)
    requires cls.write.value(value).Success?
    ensures Encoded(cls.write, value, format).Success?
    ensures Decoded(cls.read, Encoded(cls.write, value, format).value, format) == Success(value)
    ensures Validated(cls.read, Encoded(cls.write, value, format).value, format)
  {
    var buffer := cls.write.value(value).value;
    assert buffer <= buffer;
  }

  /** For a coherent type, an encoding with bytes appended is refused as trailing data in
      every supported format, and validation rejects it. */
  lemma TrailingBytesRejected<V(!new)>(cls: XdrClass<V>, value: V, extra: seq<byte>, format: string)
    requires Coherent(cls) && IsFormat(format)
    requires cls.write.value(value).Success? && |extra| > 0
    ensures var input := EncodeResult(cls.write.value(value).value + extra, format).value;
      Decoded(cls.read, input, format) == Failure(UnconsumedInput(|extra|)) &&
      !Validated(cls.read, input, format)
  {
    var buffer := cls.write.value(value).value;
    assert buffer <= buffer + extra;
  }

  /** The abstract primitive: encoding throws NotImplemented in every format, the unknown
      ones included, because the write runs before the format is looked at; decoding
      throws it for every well-formed input; validation accepts nothing. */
  lemma PrimitiveTypeUnimplemented<V(!new)>(value: V, input: Presentation, format: string)
    ensures Encoded(PrimitiveType<V>().write, value, format) == Failure(NotImplemented)
    ensures DecodeInput(input, format).Success? && DecodeInput(input, format).value.Bytes? ==>
      Decoded(PrimitiveType<V>().read, input, format) == Failure(NotImplemented)
    ensures !Validated(PrimitiveType<V>().read, input, format)
  {
  }

  /** The base composite without its own read and write: both calls forward to the class,
      which has neither, so encoding fails with the TypeError and so does decoding of
      well-formed input; validation accepts nothing. */
  lemma CompositeTypeUndefined<V>(self: V, input: Presentation, format: string)
    ensures var inst := CompositeInstance(self);
      inst.write.None? && inst.read.None? &&
      Encoded(inst.cls.write, self, format) == Failure(NotAFunction) &&
      (DecodeInput(input, format).Success? && DecodeInput(input, format).value.Bytes? ==>
        Decoded(inst.cls.read, input, format) == Failure(NotAFunction)) &&
      !Validated(inst.cls.read, input, format)
  {
  }
}
