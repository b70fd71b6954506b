/** A concrete type put through the contract: a 32-bit unsigned integer whose write
    appends its four big-endian bytes and whose read takes four bytes back. */
module XdrExample {
  import opened Wrappers
  import opened XdrStream
  import opened XdrType
  import opened XdrTypeProperties

  const Two32: int := 0x1_0000_0000

  function WriteUint32(v: int): (r: Result<seq<byte>, XdrError>)
    ensures r.Success? <==> 0 <= v < Two32
    ensures r.Success? ==> |r.value| == 4
  {
    if 0 <= v < Two32 then
      Success([(v / 0x100_0000) as byte, (v / 0x1_0000 % 256) as byte, (v / 256 % 256) as byte, (v % 256) as byte])
    else Failure(DataError("value out of range"))
  }

  function ReadUint32(s: seq<byte>): (r: Result<Readout<int>, XdrError>)
    ensures r.Success? <==> |s| >= 4
    ensures r.Success? ==> r.value.consumed == 4 && 0 <= r.value.value < Two32
  {
    if |s| < 4 then Failure(DataError("unexpected end of input"))
    else Success(Readout(((s[0] as int * 256 + s[1] as int) * 256 + s[2] as int) * 256 + s[3] as int, 4))
  }

  function Uint32Type(): (cls: XdrClass<int>) {
    XdrClass(Some(ReadUint32), Some(WriteUint32))
  }

  /** The four bytes the write produces are read back as the value. */
  lemma BigEndianRoundTrip(v: int)
    requires 0 <= v < Two32
    ensures ReadUint32(WriteUint32(v).value) == Success(Readout(v, 4))
  {
    var b := WriteUint32(v).value;
    var hi := v / 0x1_0000;
    assert v / 0x100_0000 == hi / 256;
    assert v / 256 / 256 == hi;
    assert (b[0] as int * 256 + b[1] as int) == hi;
    assert (v / 256) / 256 * 256 + (v / 256) % 256 == v / 256;
    assert (b[0] as int * 256 + b[1] as int) * 256 + b[2] as int == v / 256;
  }

  /** The 32-bit type meets the round-trip contract. */
  lemma Uint32Coherent()
    ensures Coherent(Uint32Type())
  {
    var cls := Uint32Type();
    forall v, s | cls.write.value(v).Success? && cls.write.value(v).value <= s
      ensures cls.read.value(s) == Success(Readout(v, |cls.write.value(v).value|))
    {
      var b := WriteUint32(v).value;
      BigEndianRoundTrip(v);
      assert s[..4] == b;
    }
  }

  /** The value 42 is written as the four raw bytes 0, 0, 0, 42. */
  lemma FortyTwoRaw()
    ensures Encoded(Uint32Type().write, 42, "raw") == Success(Bytes([0, 0, 0, 42]))
  {
  }

  /** The value 42 in hex is the eight digits 0000002a, which decode back to 42. */
  lemma FortyTwoHex()
    ensures Encoded(Uint32Type().write, 42, "hex") == Success(Text("0000002a"))
    ensures Decoded(Uint32Type().read, Text("0000002a"), "hex") == Success(42)
  {
    var b: seq<byte> := [0, 0, 0, 42];
    assert WriteUint32(42).value == b;
    assert Base16.Encode(b[3..]) == "2a";
    assert Base16.Encode(b[2..]) == "002a";
    assert Base16.Encode(b[1..]) == "00002a";
    assert Base16.Encode(b) == "0000002a";
    Uint32Coherent();
    RoundTrip(Uint32Type(), 42, "hex");
  }

  /** The raw bytes of 42 with one more byte appended are refused as trailing data. */
  lemma FortyTwoTrailing(extra: byte)
    ensures Decoded(Uint32Type().read, Bytes([0, 0, 0, 42, extra]), "raw") == Failure(UnconsumedInput(1))
  {
    assert WriteUint32(42).value == [0, 0, 0, 42];
    assert WriteUint32(42).value + [extra] == [0, 0, 0, 42, extra];
    Uint32Coherent();
    TrailingBytesRejected(Uint32Type(), 42, [extra], "raw");
  }
}
