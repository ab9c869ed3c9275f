/** base64.URLEncoding: section 5 of RFC 4648, with padding, as Go's package decodes it. */
module Base64 {
  import opened Common

  type Byte = b: int | 0 <= b < 256
  /** A Go string: a sequence of bytes. */
  type Text = seq<Byte>

  type Sextet = v: int | 0 <= v < 64

  const PAD: Byte := 61

  function Digit(v: Sextet): Byte {
    if v < 26 then 65 + v              // A-Z
    else if v < 52 then 97 + (v - 26)  // a-z
    else if v < 62 then 48 + (v - 52)  // 0-9
    else if v == 62 then 45            // -
    else 95                            // _
  }

  function Value(c: Byte): Option<Sextet> {
    if 65 <= c <= 90 then Some(c - 65)
    else if 97 <= c <= 122 then Some(c - 97 + 26)
    else if 48 <= c <= 57 then Some(c - 48 + 52)
    else if c == 45 then Some(62)
    else if c == 95 then Some(63)
    else None
  }

  // Three bytes b0, b1, b2 hold the bits of four sextets v0, v1, v2, v3.

  function V0(b0: Byte): Sextet { b0 / 4 }
  function V1(b0: Byte, b1: Byte): Sextet { b0 % 4 * 16 + b1 / 16 }
  function V2(b1: Byte, b2: Byte): Sextet { b1 % 16 * 4 + b2 / 64 }
  function V3(b2: Byte): Sextet { b2 % 64 }

  function B0(v0: Sextet, v1: Sextet): Byte { v0 * 4 + v1 / 16 }
  function B1(v1: Sextet, v2: Sextet): Byte { v1 % 16 * 16 + v2 / 4 }
  function B2(v2: Sextet, v3: Sextet): Byte { v2 % 4 * 64 + v3 }

  function Encode(s: Text): Text {
    if |s| == 0 then []
    else if |s| == 1 then [Digit(V0(s[0])), Digit(V1(s[0], 0)), PAD, PAD]
    else if |s| == 2 then [Digit(V0(s[0])), Digit(V1(s[0], s[1])), Digit(V2(s[1], 0)), PAD]
    else [Digit(V0(s[0])), Digit(V1(s[0], s[1])), Digit(V2(s[1], s[2])), Digit(V3(s[2]))] + Encode(s[3..])
  }

  /** Four characters at a time. Padding ends the input; bits that do not fill a byte are ignored. */
  function DecodeQuanta(s: Text): Option<Text> {
    if |s| == 0 then Some([])
    else if |s| < 4 || Value(s[0]).None? || Value(s[1]).None? then None
    else
      var v0, v1 := Value(s[0]).value, Value(s[1]).value;
      var b0 := B0(v0, v1);
      if s[2] == PAD then
        if s[3] == PAD && |s| == 4 then Some([b0]) else None
      else if Value(s[2]).None? then None
      else
        var v2 := Value(s[2]).value;
        var b1 := B1(v1, v2);
        if s[3] == PAD then
          if |s| == 4 then Some([b0, b1]) else None
        else if Value(s[3]).None? then None
        else
          var b2 := B2(v2, Value(s[3]).value);
          var rest := DecodeQuanta(s[4..]);
          if rest.None? then None else Some([b0, b1, b2] + rest.value)
  }

  /** Carriage returns and line feeds are skipped wherever they occur. */
  function WithoutLineBreaks(s: Text): Text {
    if s == [] then []
    else if s[0] == 10 || s[0] == 13 then WithoutLineBreaks(s[1..])
    else [s[0]] + WithoutLineBreaks(s[1..])
  }

  function Decode(s: Text): Option<Text> {
    DecodeQuanta(WithoutLineBreaks(s))
  }

  lemma {:induction false} LineBreakStripped(a: Text, b: Text, c: Byte)
    requires c == '\r' as int || c == '\n' as int
    ensures WithoutLineBreaks(a + [c] + b) == WithoutLineBreaks(a + b)
  {
    if a == [] {
      assert a + [c] + b == [c] + b && ([c] + b)[1..] == b && a + b == b;
    } else {
      LineBreakStripped(a[1..], b, c);
      assert (a + [c] + b)[1..] == a[1..] + [c] + b && (a + b)[1..] == a[1..] + b;
    }
  }

  /** A carriage return or a line feed makes no difference, wherever it stands. */
  lemma LineBreaksAreSkipped(a: Text, b: Text, c: Byte)
    requires c == '\r' as int || c == '\n' as int
    ensures Decode(a + [c] + b) == Decode(a + b)
  {
    LineBreakStripped(a, b, c);
  }

  predicate InAlphabet(c: Byte) {
    Value(c).Some? || c == PAD
  }

  lemma ValueOfDigit(v: Sextet)
    ensures Value(Digit(v)) == Some(v) && Digit(v) != PAD && InAlphabet(Digit(v))
  {
  }

  /** The URL-safe alphabet: upper case, lower case, digits, minus, underscore. */
  lemma DigitIs(v: Sextet)
    ensures v < 26 ==> Digit(v) == 'A' as int + v
    ensures 26 <= v < 52 ==> Digit(v) == 'a' as int + (v - 26)
    ensures 52 <= v < 62 ==> Digit(v) == '0' as int + (v - 52)
    ensures v == 62 ==> Digit(v) == '-' as int
    ensures v == 63 ==> Digit(v) == '_' as int
  {
  }

  /** Four digits hold the 24 bits of three bytes, most significant first. */
  lemma EncodeThreeBytes(s: Text) returns (v0: Sextet, v1: Sextet, v2: Sextet, v3: Sextet)
    requires |s| >= 3
    ensures Encode(s) == [Digit(v0), Digit(v1), Digit(v2), Digit(v3)] + Encode(s[3..])
    ensures ((v0 as int * 64 + v1) * 64 + v2) * 64 + v3 == (s[0] as int * 256 + s[1]) * 256 + s[2]
  {
    v0, v1, v2, v3 := V0(s[0]), V1(s[0], s[1]), V2(s[1], s[2]), V3(s[2]);
  }

  /** Of two bytes the 16 bits are followed by two zero bits and one padding character. */
  lemma EncodeTwoBytes(s: Text) returns (v0: Sextet, v1: Sextet, v2: Sextet)
    requires |s| == 2
    ensures Encode(s) == [Digit(v0), Digit(v1), Digit(v2), '=' as int]
    ensures (v0 as int * 64 + v1) * 64 + v2 == (s[0] as int * 256 + s[1]) * 4
  {
    v0, v1, v2 := V0(s[0]), V1(s[0], s[1]), V2(s[1], 0);
  }

  /** Of one byte the 8 bits are followed by four zero bits and two padding characters. */
  lemma EncodeOneByte(s: Text) returns (v0: Sextet, v1: Sextet)
    requires |s| == 1
    ensures Encode(s) == [Digit(v0), Digit(v1), '=' as int, '=' as int]
    ensures v0 as int * 64 + v1 == s[0] as int * 16
  {
    v0, v1 := V0(s[0]), V1(s[0], 0);
  }

  lemma {:induction false} EncodeInAlphabet(s: Text)
    ensures forall i :: 0 <= i < |Encode(s)| ==> InAlphabet(Encode(s)[i])
    ensures s != [] ==> |Encode(s)| >= 4
  {
    if |s| >= 3 {
      EncodeInAlphabet(s[3..]);
    }
  }

  lemma {:induction false} NothingToStrip(s: Text)
    requires forall i :: 0 <= i < |s| ==> InAlphabet(s[i])
    ensures WithoutLineBreaks(s) == s
  {
    if s != [] {
      NothingToStrip(s[1..]);
    }
  }

  /** Three bytes survive being cut into four sextets and put together again. */
  lemma QuantumRoundTrip(b0: Byte, b1: Byte, b2: Byte)
    ensures B0(V0(b0), V1(b0, b1)) == b0
    ensures B1(V1(b0, b1), V2(b1, b2)) == b1
    ensures B2(V2(b1, b2), V3(b2)) == b2
  {
  }

  lemma DecodeFullQuantum(v0: Sextet, v1: Sextet, v2: Sextet, v3: Sextet, tail: Text, rest: Text)
    requires DecodeQuanta(tail) == Some(rest)
    ensures DecodeQuanta([Digit(v0), Digit(v1), Digit(v2), Digit(v3)] + tail)
         == Some([B0(v0, v1), B1(v1, v2), B2(v2, v3)] + rest)
  {
    var s := [Digit(v0), Digit(v1), Digit(v2), Digit(v3)] + tail;
    assert s[4..] == tail;
    ValueOfDigit(v0);
    ValueOfDigit(v1);
    ValueOfDigit(v2);
    ValueOfDigit(v3);
  }

  lemma DecodePaddedQuanta(v0: Sextet, v1: Sextet, v2: Sextet)
    ensures DecodeQuanta([Digit(v0), Digit(v1), PAD, PAD]) == Some([B0(v0, v1)])
    ensures DecodeQuanta([Digit(v0), Digit(v1), Digit(v2), PAD]) == Some([B0(v0, v1), B1(v1, v2)])
  {
    ValueOfDigit(v0);
    ValueOfDigit(v1);
    ValueOfDigit(v2);
  }

  lemma OneByteRoundTrip(b0: Byte)
    ensures DecodeQuanta(Encode([b0])) == Some([b0])
  {
    DecodePaddedQuanta(V0(b0), V1(b0, 0), 0);
    QuantumRoundTrip(b0, 0, 0);
  }

  lemma ThreeByteRoundTrip(b0: Byte, b1: Byte, b2: Byte, rest: Text)
    requires DecodeQuanta(Encode(rest)) == Some(rest)
    ensures DecodeQuanta(Encode([b0, b1, b2] + rest)) == Some([b0, b1, b2] + rest)
  {
    assert ([b0, b1, b2] + rest)[3..] == rest;
    DecodeFullQuantum(V0(b0), V1(b0, b1), V2(b1, b2), V3(b2), Encode(rest), rest);
    QuantumRoundTrip(b0, b1, b2);
  }

  lemma {:induction false} QuantaRoundTrip(s: Text)
    ensures DecodeQuanta(Encode(s)) == Some(s)
  {
    if |s| >= 3 {
      QuantaRoundTrip(s[3..]);
      ThreeByteRoundTrip(s[0], s[1], s[2], s[3..]);
      assert s == [s[0], s[1], s[2]] + s[3..];
    } else if |s| == 2 {
      assert s == [s[0], s[1]];
      DecodePaddedQuanta(V0(s[0]), V1(s[0], s[1]), V2(s[1], 0));
      QuantumRoundTrip(s[0], s[1], 0);
    } else if |s| == 1 {
      assert s == [s[0]];
      OneByteRoundTrip(s[0]);
    }
  }

  /** The first four characters: digits, or, at the end of the input, two or three digits and padding. */
  lemma FirstQuantum(s: Text)
    requires DecodeQuanta(s).Some? && s != []
    ensures |s| >= 4 && Value(s[0]).Some? && Value(s[1]).Some?
    ensures |s| > 4 ==> Value(s[2]).Some? && Value(s[3]).Some? && DecodeQuanta(s[4..]).Some?
    ensures Value(s[2]).Some? || s[2] == '=' as int
    ensures Value(s[3]).Some? || s[3] == '=' as int
  {
  }

  lemma EncodeRoundTrip(s: Text)
    ensures Decode(Encode(s)) == Some(s)
  {
    EncodeInAlphabet(s);
    NothingToStrip(Encode(s));
    QuantaRoundTrip(s);
  }

  lemma EncodeInjective(a: Text, b: Text)
    requires Encode(a) == Encode(b)
    ensures a == b
  {
    EncodeRoundTrip(a);
    EncodeRoundTrip(b);
  }
}
