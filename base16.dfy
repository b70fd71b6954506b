/** Base16 ("hex") as Node's Buffer writes it: the encoding of section 8 of RFC 4648,
    with the lower-case digits a-f in place of the RFC's upper-case alphabet. */
module Base16 {
  import opened Wrappers

  predicate IsLowerHexDigit(c: char) {
    '0' <= c <= '9' || 'a' <= c <= 'f'
  }

  predicate IsHexDigit(c: char) {
    IsLowerHexDigit(c) || 'A' <= c <= 'F'
  }

  /** The lower-case digit that stands for a 4-bit value. */
  function Digit(n: int): (c: char)
    requires 0 <= n < 16
    ensures IsLowerHexDigit(c)
  {
    if n < 10 then (48 + n) as char else (97 + n - 10) as char
  }

  /** The 4-bit value of a digit; both cases are accepted on input, as Node does. */
  function Nibble(c: char): (r: Option<int>)
    ensures r.Some? <==> IsHexDigit(c)
    ensures r.Some? ==> 0 <= r.value < 16
  {
    if '0' <= c <= '9' then Some(c as int - 48)
    else if 'a' <= c <= 'f' then Some(c as int - 97 + 10)
    else if 'A' <= c <= 'F' then Some(c as int - 65 + 10)
    else None
  }

  lemma NibbleOfDigit(n: int)
    requires 0 <= n < 16
    ensures Nibble(Digit(n)) == Some(n)
  {
  }

  lemma DigitOfNibble(c: char)
    requires IsLowerHexDigit(c)
    ensures Digit(Nibble(c).value) == c
  {
  }

  /** Two digits per byte, high nibble first. */
  function Encode(bytes: seq<byte>): (s: string)
    ensures |s| == 2 * |bytes|
    ensures forall i :: 0 <= i < |s| ==> IsLowerHexDigit(s[i])
  {
    if bytes == [] then []
    else [Digit(bytes[0] as int / 16), Digit(bytes[0] as int % 16)] + Encode(bytes[1..])
  }

  /** The bytes a hex text stands for; None when its length is odd or a character is
      not a hex digit. */
  function Decode(s: string): (r: Option<seq<byte>>)
    ensures r.Some? ==> 2 * |r.value| == |s|
  {
    if |s| == 0 then Some([])
    else if |s| == 1 then None
    else
      match (Nibble(s[0]), Nibble(s[1]), Decode(s[2..]))
      case (Some(hi), Some(lo), Some(rest)) => Some([(hi * 16 + lo) as byte] + rest)
      case _ => None
  }

  /** Decoding succeeds exactly on even-length text made of hex digits. */
  lemma {:induction false} DecodeDefined(s: string)
    ensures Decode(s).Some? <==> |s| % 2 == 0 && forall i :: 0 <= i < |s| ==> IsHexDigit(s[i])
  {
    if |s| >= 2 {
      DecodeDefined(s[2..]);
      assert forall i :: 2 <= i < |s| ==> s[i] == s[2..][i - 2];
    }
  }

  /** Decoding the encoding of any bytes gives those bytes back. */
  lemma {:induction false} DecodeEncode(bytes: seq<byte>)
    ensures Decode(Encode(bytes)) == Some(bytes)
  {
    if bytes != [] {
      var b := bytes[0] as int;
      var s := Encode(bytes);
      NibbleOfDigit(b / 16);
      NibbleOfDigit(b % 16);
      assert s[2..] == Encode(bytes[1..]);
      DecodeEncode(bytes[1..]);
      assert [bytes[0]] + bytes[1..] == bytes;
    }
  }

  /** Encoding the decoding of lower-case hex text gives the text back; upper-case
      digits come back lower-case. */
  lemma {:induction false} EncodeDecode(s: string)
    requires |s| % 2 == 0
    requires forall i :: 0 <= i < |s| ==> IsLowerHexDigit(s[i])
    ensures Decode(s).Some? && Encode(Decode(s).value) == s
  {
    if |s| >= 2 {
      assert forall i :: 0 <= i < |s| - 2 ==> s[2..][i] == s[i + 2];
      EncodeDecode(s[2..]);
      var hi, lo := Nibble(s[0]).value, Nibble(s[1]).value;
      DigitOfNibble(s[0]);
      DigitOfNibble(s[1]);
      assert ((hi * 16 + lo) as byte) as int / 16 == hi;
      assert ((hi * 16 + lo) as byte) as int % 16 == lo;
    }
  }
}
