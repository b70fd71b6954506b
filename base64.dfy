/** Base64 as Node's Buffer writes it: the encoding of section 4 of RFC 4648, standard
    alphabet A-Z a-z 0-9 + /, output padded with '=' to a multiple of four characters. */
module Base64 {
  import opened Wrappers

  predicate IsAlphabetChar(c: char) {
    'A' <= c <= 'Z' || 'a' <= c <= 'z' || '0' <= c <= '9' || c == '+' || c == '/'
  }

  /** The character of the alphabet that stands for a 6-bit value. */
  function Char(n: int): (c: char)
    requires 0 <= n < 64
    ensures IsAlphabetChar(c)
  {
    if n < 26 then (65 + n) as char
    else if n < 52 then (97 + n - 26) as char
    else if n < 62 then (48 + n - 52) as char
    else if n == 62 then '+'
    else '/'
  }

  /** The 6-bit value of an alphabet character; None for '=' and everything else. */
  function Index(c: char): (r: Option<int>)
    ensures r.Some? <==> IsAlphabetChar(c)
    ensures r.Some? ==> 0 <= r.value < 64
  {
    if 'A' <= c <= 'Z' then Some(c as int - 65)
    else if 'a' <= c <= 'z' then Some(c as int - 97 + 26)
    else if '0' <= c <= '9' then Some(c as int - 48 + 52)
    else if c == '+' then Some(62)
    else if c == '/' then Some(63)
    else None
  }

  lemma IndexOfChar(n: int)
    requires 0 <= n < 64
    ensures Index(Char(n)) == Some(n)
  {
  }

  lemma IndexOfCharInverse(c: char)
    requires IsAlphabetChar(c)
    ensures Char(Index(c).value) == c
  {
  }

  /** The number of '=' characters that end the encoding of n bytes. */
  function Padding(n: nat): (p: nat) {
    (3 - n % 3) % 3
  }

  /** The four 6-bit values of a quantum of up to three bytes, a missing byte
      counting as zero. */
  function Sextets(q: seq<byte>): (c: seq<int>)
    requires 1 <= |q| <= 3
    ensures |c| == 4 && forall i :: 0 <= i < 4 ==> 0 <= c[i] < 64
  {
    var b0 := q[0] as int;
    var b1 := if |q| > 1 then q[1] as int else 0;
    var b2 := if |q| > 2 then q[2] as int else 0;
    [b0 / 4, b0 % 4 * 16 + b1 / 16, b1 % 16 * 4 + b2 / 64, b2 % 64]
  }

  /** One quantum: up to three bytes as four characters, '=' standing for the
      characters the missing bytes would have produced. */
  function EncodeQuantum(q: seq<byte>): (s: string)
    requires 1 <= |q| <= 3
    ensures |s| == 4
    ensures forall i :: 0 <= i < 4 ==> (if i < 4 - Padding(|q|) then IsAlphabetChar(s[i]) else s[i] == '=')
  {
    var c := Sextets(q);
    [ Char(c[0]),
      Char(c[1]),
      if |q| > 1 then Char(c[2]) else '=',
      if |q| > 2 then Char(c[3]) else '=' ]
  }

  /** Base64 text of a byte sequence: whole quanta of three bytes, then the padded rest. */
  function Encode(bytes: seq<byte>): (s: string)
    ensures |s| == 4 * ((|bytes| + 2) / 3)
    ensures forall i :: 0 <= i < |s| ==>
      (if i < |s| - Padding(|bytes|) then IsAlphabetChar(s[i]) else s[i] == '=')
  {
    if |bytes| == 0 then []
    else if |bytes| <= 3 then EncodeQuantum(bytes)
    else
      var head, tail := EncodeQuantum(bytes[..3]), Encode(bytes[3..]);
      QuantumStep(|bytes|);
      ConcatShape(head, tail, Padding(|bytes|));
      head + tail
  }

  /** Three more bytes add one quantum and leave the padding as it was. */
  lemma QuantumStep(n: nat)
    requires n > 3
    ensures 4 * ((n + 2) / 3) == 4 + 4 * ((n - 3 + 2) / 3)
    ensures Padding(n) == Padding(n - 3) <= 2 < 4 * ((n - 3 + 2) / 3)
  {
  }

  /** A full quantum followed by text whose last p characters are the padding. */
  lemma ConcatShape(head: string, tail: string, p: nat)
    requires |head| == 4 && p <= |tail|
    requires forall i :: 0 <= i < 4 ==> IsAlphabetChar(head[i])
    requires forall i :: 0 <= i < |tail| ==> (if i < |tail| - p then IsAlphabetChar(tail[i]) else tail[i] == '=')
    ensures forall i :: 0 <= i < |head + tail| ==>
      (if i < |head + tail| - p then IsAlphabetChar((head + tail)[i]) else (head + tail)[i] == '=')
  {
    forall i | 0 <= i < |head + tail|
      ensures if i < |head + tail| - p then IsAlphabetChar((head + tail)[i]) else (head + tail)[i] == '='
    {
      if i >= 4 { assert (head + tail)[i] == tail[i - 4]; }
    }
  }

  /** The three bytes that four 6-bit values carry. */
  function Octets(c0: int, c1: int, c2: int, c3: int): (b: seq<byte>)
    requires 0 <= c0 < 64 && 0 <= c1 < 64 && 0 <= c2 < 64 && 0 <= c3 < 64
    ensures |b| == 3
  {
    [(c0 * 4 + c1 / 16) as byte, (c1 % 16 * 16 + c2 / 4) as byte, (c2 % 4 * 64 + c3) as byte]
  }

  /** The bytes of four characters; '=' is accepted only in the last quantum of the
      text, as "xx==" or "xxx=". */
  function DecodeQuantum(q: string, last: bool): (r: Option<seq<byte>>)
    requires |q| == 4
    ensures r.Some? ==> 1 <= |r.value| <= 3
    ensures r.Some? && !last ==> |r.value| == 3
  {
    if !IsAlphabetChar(q[0]) || !IsAlphabetChar(q[1]) then None
    else
      var c0, c1 := Index(q[0]).value, Index(q[1]).value;
      if IsAlphabetChar(q[2]) && IsAlphabetChar(q[3]) then
        Some(Octets(c0, c1, Index(q[2]).value, Index(q[3]).value))
      else if IsAlphabetChar(q[2]) && last && q[3] == '=' then
        Some(Octets(c0, c1, Index(q[2]).value, 0)[..2])
      else if last && q[2] == '=' && q[3] == '=' then
        Some(Octets(c0, c1, 0, 0)[..1])
      else None
  }

  /** The bytes a base64 text stands for; None unless the text is whole quanta over the
      alphabet with padding only at its end. Every accepted text is four characters per
      three bytes, rounded up. */
  function Decode(s: string): (r: Option<seq<byte>>)
    ensures r.Some? ==> |s| == 4 * ((|r.value| + 2) / 3)
  {
    if |s| == 0 then Some([])
    else if |s| < 4 then None
    else
      match (DecodeQuantum(s[..4], |s| == 4), Decode(s[4..]))
      case (Some(head), Some(tail)) =>
        assert |s| > 4 ==> |head| == 3 && (3 + |tail| + 2) / 3 == (|tail| + 2) / 3 + 1;
        assert |s| == 4 ==> |tail| == 0;
        Some(head + tail)
      case _ => None
  }

  /** Text the decoder accepts: whole quanta, every character from the alphabet except
      that the last one or two may be '=', and no '=' is followed by an alphabet
      character. Bits of the last significant character that the padding leaves unused
      are not looked at. */
  predicate WellFormed(s: string) {
    |s| % 4 == 0 &&
    forall i :: 0 <= i < |s| ==>
      IsAlphabetChar(s[i]) || (s[i] == '=' && i >= |s| - 2 && s[|s| - 1] == '=')
  }

  /** A quotient and a remainder by k, joined, divide back into them; one lemma for each
      width the quanta use. */
  lemma Pack4(hi: int, lo: int)
    requires 0 <= hi && 0 <= lo < 4
    ensures (hi * 4 + lo) / 4 == hi && (hi * 4 + lo) % 4 == lo
  {
  }

  lemma Pack16(hi: int, lo: int)
    requires 0 <= hi && 0 <= lo < 16
    ensures (hi * 16 + lo) / 16 == hi && (hi * 16 + lo) % 16 == lo
  {
  }

  lemma Pack64(hi: int, lo: int)
    requires 0 <= hi && 0 <= lo < 64
    ensures (hi * 64 + lo) / 64 == hi && (hi * 64 + lo) % 64 == lo
  {
  }

  /** The bytes a quantum's 6-bit values carry are the bytes it was made from. */
  lemma OctetsOfSextets(q: seq<byte>)
    requires 1 <= |q| <= 3
    ensures var c := Sextets(q); Octets(c[0], c[1], c[2], c[3])[..|q|] == q
  {
    var b0 := q[0] as int;
    var b1 := if |q| > 1 then q[1] as int else 0;
    var b2 := if |q| > 2 then q[2] as int else 0;
    Pack16(b0 % 4, b1 / 16);
    Pack4(b1 % 16, b2 / 64);
    var o := Octets(b0 / 4, b0 % 4 * 16 + b1 / 16, b1 % 16 * 4 + b2 / 64, b2 % 64);
    assert o[0] as int == b0 && o[1] as int == b1 && o[2] as int == b2;
  }

  lemma DecodeEncodeQuantum(q: seq<byte>, last: bool)
    requires 1 <= |q| <= 3
    requires |q| < 3 ==> last
    ensures DecodeQuantum(EncodeQuantum(q), last) == Some(q)
  {
    var s := EncodeQuantum(q);
    var c := Sextets(q);
    IndexOfChar(c[0]);
    IndexOfChar(c[1]);
    OctetsOfSextets(q);
    if |q| == 1 {
      assert c[2] == 0 && c[3] == 0;
      assert !IsAlphabetChar(s[2]);
    } else if |q| == 2 {
      IndexOfChar(c[2]);
      assert c[3] == 0;
      assert !IsAlphabetChar(s[3]);
    } else {
      IndexOfChar(c[2]);
      IndexOfChar(c[3]);
      assert Octets(c[0], c[1], c[2], c[3]) == Octets(c[0], c[1], c[2], c[3])[..3] == q;
      assert IsAlphabetChar(s[2]) && IsAlphabetChar(s[3]);
    }
  }

  /** A single quantum decodes as the last one. */
  lemma DecodeSingle(q: string)
    requires |q| == 4
    ensures Decode(q) == DecodeQuantum(q, true)
  {
    assert q[..4] == q && q[4..] == [];
    match DecodeQuantum(q, true)
    case Some(head) => assert head + [] == head;
    case None =>
  }

  /** A quantum that is not the last, followed by more text, decodes as the quantum's
      bytes followed by the rest's. */
  lemma DecodeConcat(q: string, rest: string)
    requires |q| == 4 && |rest| > 0
    ensures Decode(q + rest) ==
      match (DecodeQuantum(q, false), Decode(rest))
      case (Some(head), Some(tail)) => Some(head + tail)
      case _ => None
  {
    assert (q + rest)[..4] == q && (q + rest)[4..] == rest;
  }

  /** A text longer than one quantum decodes as its first quantum, which is not the last,
      followed by the rest. */
  lemma DecodeSplit(s: string)
    requires |s| > 4 && Decode(s).Some?
    ensures DecodeQuantum(s[..4], false).Some? && Decode(s[4..]).Some?
    ensures Decode(s).value == DecodeQuantum(s[..4], false).value + Decode(s[4..]).value
  {
  }

  /** More than three bytes encode as the quantum of the first three followed by the
      encoding of the rest. */
  lemma EncodeSplit(bytes: seq<byte>)
    requires |bytes| > 3
    ensures Encode(bytes) == EncodeQuantum(bytes[..3]) + Encode(bytes[3..])
  {
  }

  /** Decoding the encoding of any bytes gives those bytes back. */
  lemma {:induction false} DecodeEncode(bytes: seq<byte>)
    ensures Decode(Encode(bytes)) == Some(bytes)
  {
    if |bytes| == 0 {
    } else if |bytes| <= 3 {
      DecodeSingle(EncodeQuantum(bytes));
      DecodeEncodeQuantum(bytes, true);
    } else {
      EncodeSplit(bytes);
      DecodeConcat(EncodeQuantum(bytes[..3]), Encode(bytes[3..]));
      DecodeEncodeQuantum(bytes[..3], false);
      DecodeEncode(bytes[3..]);
      assert bytes[..3] + bytes[3..] == bytes;
    }
  }

  /** Whether a quantum's last significant character carries no bits beyond the bytes it
      ends: the form the encoder writes. */
  predicate CanonicalQuantum(q: string)
    requires |q| == 4
  {
    (q[2] == '=' ==> Index(q[1]).Some? && Index(q[1]).value % 16 == 0) &&
    (q[2] != '=' && q[3] == '=' ==> Index(q[2]).Some? && Index(q[2]).value % 4 == 0)
  }

  /** Text whose every quantum is in canonical form. */
  predicate Canonical(s: string)
    decreases |s|
  {
    |s| == 0 || (|s| >= 4 && CanonicalQuantum(s[..4]) && Canonical(s[4..]))
  }

  lemma SextetsOfOctets(c0: int, c1: int, c2: int, c3: int, n: int)
    requires 0 <= c0 < 64 && 0 <= c1 < 64 && 0 <= c2 < 64 && 0 <= c3 < 64
    requires 1 <= n <= 3
    requires n == 1 ==> c1 % 16 == 0 && c2 == 0 && c3 == 0
    requires n == 2 ==> c2 % 4 == 0 && c3 == 0
    ensures Sextets(Octets(c0, c1, c2, c3)[..n]) == [c0, c1, c2, c3]
  {
    var o := Octets(c0, c1, c2, c3);
    Pack4(c0, c1 / 16);
    assert o[0] as int / 4 == c0 && o[0] as int % 4 == c1 / 16;
    if n == 1 {
      assert Sextets(o[..1]) == [c0, o[0] as int % 4 * 16, 0, 0];
    } else {
      Pack16(c1 % 16, c2 / 4);
      assert o[1] as int / 16 == c1 % 16 && o[1] as int % 16 == c2 / 4;
      if n == 2 {
        assert Sextets(o[..2]) == [c0, o[0] as int % 4 * 16 + o[1] as int / 16, o[1] as int % 16 * 4, 0];
      } else {
        Pack64(c2 % 4, c3);
        assert o[2] as int / 64 == c2 % 4 && o[2] as int % 64 == c3;
        assert o[..3] == o;
      }
    }
  }

  lemma EncodeDecodeQuantum(q: string, last: bool)
    requires |q| == 4 && DecodeQuantum(q, last).Some? && CanonicalQuantum(q)
    ensures EncodeQuantum(DecodeQuantum(q, last).value) == q
  {
    var bytes := DecodeQuantum(q, last).value;
    var c0, c1 := Index(q[0]).value, Index(q[1]).value;
    IndexOfCharInverse(q[0]);
    IndexOfCharInverse(q[1]);
    if IsAlphabetChar(q[2]) && IsAlphabetChar(q[3]) {
      var c2, c3 := Index(q[2]).value, Index(q[3]).value;
      IndexOfCharInverse(q[2]);
      IndexOfCharInverse(q[3]);
      SextetsOfOctets(c0, c1, c2, c3, 3);
      assert bytes == Octets(c0, c1, c2, c3)[..3];
    } else if IsAlphabetChar(q[2]) {
      var c2 := Index(q[2]).value;
      IndexOfCharInverse(q[2]);
      SextetsOfOctets(c0, c1, c2, 0, 2);
    } else {
      SextetsOfOctets(c0, c1, 0, 0, 1);
    }
  }

  /** A single quantum is accepted exactly when it is well-formed on its own. */
  lemma DecodeDefinedQuantum(q: string)
    requires |q| == 4
    ensures DecodeQuantum(q, true).Some? <==> WellFormed(q)
    ensures DecodeQuantum(q, false).Some? <==> forall i :: 0 <= i < 4 ==> IsAlphabetChar(q[i])
  {
    if WellFormed(q) {
      assert IsAlphabetChar(q[0]) && IsAlphabetChar(q[1]);
    }
    if DecodeQuantum(q, true).Some? {
      forall i | 0 <= i < 4
        ensures IsAlphabetChar(q[i]) || (q[i] == '=' && i >= 2 && q[3] == '=')
      {
      }
    }
  }

  /** Text longer than one quantum is well-formed exactly when its first quantum is
      four alphabet characters and the rest is well-formed. */
  lemma WellFormedSplit(s: string)
    requires |s| > 4
    ensures WellFormed(s) <==>
      (forall i :: 0 <= i < 4 ==> IsAlphabetChar(s[..4][i])) && WellFormed(s[4..])
  {
    var q, rest := s[..4], s[4..];
    if WellFormed(s) {
      forall i | 0 <= i < |rest|
        ensures IsAlphabetChar(rest[i]) || (rest[i] == '=' && i >= |rest| - 2 && rest[|rest| - 1] == '=')
      {
        assert rest[i] == s[i + 4];
      }
    }
    if (forall i :: 0 <= i < 4 ==> IsAlphabetChar(q[i])) && WellFormed(rest) {
      forall i | 0 <= i < |s|
        ensures IsAlphabetChar(s[i]) || (s[i] == '=' && i >= |s| - 2 && s[|s| - 1] == '=')
      {
        if i < 4 {
          assert s[i] == q[i];
        } else {
          assert s[i] == rest[i - 4];
        }
      }
    }
  }

  /** Decoding succeeds exactly on well-formed text. */
  lemma {:induction false} DecodeDefined(s: string)
    ensures Decode(s).Some? <==> WellFormed(s)
  {
    if |s| == 0 {
    } else if |s| < 4 {
      assert !WellFormed(s);
    } else if |s| == 4 {
      DecodeSingle(s);
      DecodeDefinedQuantum(s);
    } else {
      var q, rest := s[..4], s[4..];
      assert s == q + rest;
      DecodeConcat(q, rest);
      DecodeDefinedQuantum(q);
      DecodeDefined(rest);
      WellFormedSplit(s);
    }
  }

  /** Encoding the decoding of canonical text gives the text back. */
  lemma {:induction false} EncodeDecode(s: string)
    requires Decode(s).Some? && Canonical(s)
    ensures Encode(Decode(s).value) == s
  {
    if |s| == 4 {
      DecodeSingle(s);
      assert s[..4] == s;
      EncodeDecodeQuantum(s, true);
    } else if |s| > 4 {
      DecodeSplit(s);
      var head, tail := DecodeQuantum(s[..4], false).value, Decode(s[4..]).value;
      EncodeDecodeQuantum(s[..4], false);
      EncodeDecode(s[4..]);
      var bytes := head + tail;
      assert bytes[..3] == head && bytes[3..] == tail;
      EncodeSplit(bytes);
      assert s == s[..4] + s[4..];
    }
  }
}
