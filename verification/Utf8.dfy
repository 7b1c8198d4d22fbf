/**
  UTF-8 as the text buffer uses it: encoding, decoding, validation, stepping between
  code-point boundaries and counting terminal columns.

  The bit masks and shifts of the C code are written as ranges and as divisions and
  remainders by powers of two, which agree with them on unsigned values.
 */
module Utf8 {
  import opened Basics

  /** The result of decoding at an offset: a scalar value and the number of bytes it takes. */
  datatype Decoded = Malformed | Scalar(codepoint: nat, length: nat)

  /** The bytes whose top two bits are 10. */
  predicate IsContinuation(b: Byte) {
    0x80 <= b <= 0xBF
  }

  predicate IsScalarValue(cp: nat) {
    cp <= 0x10FFFF && !(0xD800 <= cp <= 0xDFFF)
  }

  lemma SliceOfSlice<T>(s: seq<T>, a: nat, b: nat, i: nat, j: nat)
    requires a <= b <= |s| && i <= j <= b - a
    ensures s[a..b][i..j] == s[a + i..a + j]
  {
    var t := s[a..b];
    forall k | 0 <= k < j - i
      ensures t[i..j][k] == s[a + i..a + j][k]
    {
    }
  }

  lemma TakeJoin<T>(s: seq<T>, n: nat, k: nat)
    requires n <= k <= |s|
    ensures s[..n] + s[n..][..k - n] == s[..k]
    ensures s[n..][k - n..] == s[k..]
  {
    forall i | 0 <= i < k
      ensures (s[..n] + s[n..][..k - n])[i] == s[..k][i]
    {
    }
  }

  // ----- The encoded forms of RFC 3629 -----

  /** The grammar UTF8-char of section 4 of RFC 3629. */
  predicate WellFormedChar(s: Bytes) {
    match |s|
    case 1 => s[0] <= 0x7F
    case 2 => 0xC2 <= s[0] <= 0xDF && IsContinuation(s[1])
    case 3 =>
      && IsContinuation(s[2])
      && (|| (s[0] == 0xE0 && 0xA0 <= s[1] <= 0xBF)
          || (0xE1 <= s[0] <= 0xEC && IsContinuation(s[1]))
          || (s[0] == 0xED && 0x80 <= s[1] <= 0x9F)
          || (0xEE <= s[0] <= 0xEF && IsContinuation(s[1])))
    case 4 =>
      && IsContinuation(s[2]) && IsContinuation(s[3])
      && (|| (s[0] == 0xF0 && 0x90 <= s[1] <= 0xBF)
          || (0xF1 <= s[0] <= 0xF3 && IsContinuation(s[1]))
          || (s[0] == 0xF4 && 0x80 <= s[1] <= 0x8F))
    case _ => false
  }

  /** The six payload bits of a continuation byte. */
  function Payload(b: Byte): nat {
    b % 64
  }

  /** The payload bits of the lead byte of an `n`-byte form. */
  function LeadPayload(b: Byte, n: nat): nat {
    match n
    case 2 => b % 32
    case 3 => b % 16
    case 4 => b % 8
    case _ => b
  }

  /** The bits that the first `i` bytes of an `n`-byte form carry. */
  function Bits(s: Bytes, n: nat, i: nat): nat
    requires 1 <= i <= |s|
  {
    if i == 1 then LeadPayload(s[0], n) else Bits(s, n, i - 1) * 64 + Payload(s[i - 1])
  }

  /** The length that a lead byte announces; 0 for a byte that starts no form. */
  function LeadLength(b: Byte): nat {
    if b <= 0x7F then 1
    else if 0xC2 <= b <= 0xDF then 2
    else if 0xE0 <= b <= 0xEF then 3
    else if 0xF0 <= b <= 0xF4 then 4
    else 0
  }

  /** Decoding by the grammar: the form at `offset`, if there is one. */
  function Decode(text: Bytes, offset: nat): (d: Decoded)
    ensures d.Scalar? ==> 1 <= d.length <= 4 && offset + d.length <= |text|
  {
    if offset >= |text| then Malformed
    else
      var n := LeadLength(text[offset]);
      if n == 0 || offset + n > |text| || !WellFormedChar(text[offset..offset + n]) then Malformed
      else Scalar(Bits(text[offset..offset + n], n, n), n)
  }

  function Encode(cp: nat): Option<Bytes> {
    if !IsScalarValue(cp) then None
    else if cp <= 0x7F then Some([cp])
    else if cp <= 0x7FF then Some([0xC0 + cp / 64, 0x80 + cp % 64])
    else if cp <= 0xFFFF then Some([0xE0 + cp / 4096, 0x80 + cp / 64 % 64, 0x80 + cp % 64])
    else Some([0xF0 + cp / 262144, 0x80 + cp / 4096 % 64, 0x80 + cp / 64 % 64, 0x80 + cp % 64])
  }

  /** Writes the encoding into the caller's four-byte buffer. */
  method EncodeInto(cp: nat, out: array<Byte>) returns (ok: bool, n: nat)
    requires out.Length == 4
    modifies out
    ensures ok == IsScalarValue(cp)
    ensures ok ==> 1 <= n <= 4 && Encode(cp) == Some(out[..n]) && out[n..] == old(out[n..])
    ensures !ok ==> n == 0 && out[..] == old(out[..])
  {
    if cp > 0x10FFFF || 0xD800 <= cp <= 0xDFFF {
      return false, 0;
    }
    if cp <= 0x7F {
      out[0], n := cp, 1;
    } else if cp <= 0x7FF {
      out[0], out[1], n := 0xC0 + cp / 64, 0x80 + cp % 64, 2;
    } else if cp <= 0xFFFF {
      out[0], out[1], out[2], n := 0xE0 + cp / 4096, 0x80 + cp / 64 % 64, 0x80 + cp % 64, 3;
    } else {
      out[0], out[1], out[2], out[3], n :=
        0xF0 + cp / 262144, 0x80 + cp / 4096 % 64, 0x80 + cp / 64 % 64, 0x80 + cp % 64, 4;
    }
    assert out[..n] == Encode(cp).value;
    ok := true;
  }

  lemma BitsOf2(s: Bytes)
    requires |s| == 2
    ensures Bits(s, 2, 2) == LeadPayload(s[0], 2) * 64 + Payload(s[1])
  {
    assert Bits(s, 2, 1) == LeadPayload(s[0], 2);
  }

  lemma BitsOf3(s: Bytes)
    requires |s| == 3
    ensures Bits(s, 3, 3) == LeadPayload(s[0], 3) * 4096 + Payload(s[1]) * 64 + Payload(s[2])
  {
    assert Bits(s, 3, 1) == LeadPayload(s[0], 3);
    assert Bits(s, 3, 2) == LeadPayload(s[0], 3) * 64 + Payload(s[1]);
  }

  lemma BitsOf4(s: Bytes)
    requires |s| == 4
    ensures Bits(s, 4, 4) ==
            LeadPayload(s[0], 4) * 262144 + Payload(s[1]) * 4096 + Payload(s[2]) * 64 + Payload(s[3])
  {
    assert Bits(s, 4, 1) == LeadPayload(s[0], 4);
    assert Bits(s, 4, 2) == LeadPayload(s[0], 4) * 64 + Payload(s[1]);
    assert Bits(s, 4, 3) == LeadPayload(s[0], 4) * 4096 + Payload(s[1]) * 64 + Payload(s[2]);
  }

  /** The scalar-range test that the loop form of decoding makes after it has gathered the bits. */
  predicate InRange(n: nat, cp: nat) {
    && !(n == 2 && cp < 0x80) && !(n == 3 && cp < 0x800) && !(n == 4 && cp < 0x10000)
    && IsScalarValue(cp)
  }

  lemma RangeTest3(s: Bytes)
    requires |s| == 3 && LeadLength(s[0]) == 3 && IsContinuation(s[1]) && IsContinuation(s[2])
    ensures InRange(3, Bits(s, 3, 3)) <==> WellFormedChar(s)
  {
    hide Bits;
    BitsOf3(s);
  }

  lemma RangeTest4(s: Bytes)
    requires |s| == 4 && LeadLength(s[0]) == 4
    requires IsContinuation(s[1]) && IsContinuation(s[2]) && IsContinuation(s[3])
    ensures InRange(4, Bits(s, 4, 4)) <==> WellFormedChar(s)
  {
    hide Bits;
    BitsOf4(s);
  }

  lemma RangeTest2(s: Bytes)
    requires |s| == 2 && LeadLength(s[0]) == 2 && IsContinuation(s[1])
    ensures InRange(2, Bits(s, 2, 2)) <==> WellFormedChar(s)
  {
    hide Bits;
    BitsOf2(s);
  }

  /** Among sequences of lead and continuation bytes, the range test picks out exactly the grammar. */
  lemma RangeTestIsGrammar(s: Bytes)
    requires 1 <= |s| <= 4 && LeadLength(s[0]) == |s|
    requires forall i :: 1 <= i < |s| ==> IsContinuation(s[i])
    ensures InRange(|s|, Bits(s, |s|, |s|)) <==> WellFormedChar(s)
  {
    hide InRange, WellFormedChar, LeadLength, IsContinuation;
    if |s| == 1 {
      RangeTest1(s);
    } else if |s| == 2 {
      RangeTest2(s);
    } else if |s| == 3 {
      RangeTest3(s);
    } else {
      RangeTest4(s);
    }
  }

  lemma RangeTest1(s: Bytes)
    requires |s| == 1 && LeadLength(s[0]) == 1
    ensures InRange(1, Bits(s, 1, 1)) <==> WellFormedChar(s)
  {
  }

  lemma TailOfWellFormed(s: Bytes, i: nat)
    requires 1 <= i < |s|
    ensures WellFormedChar(s) ==> IsContinuation(s[i])
  {
  }

  /** The loop form of decoding accepts exactly the grammar of RFC 3629 and gathers its bits. */
  method DecodeAt(text: Bytes, offset: nat) returns (ok: bool, codepoint: nat, length: nat)
    ensures ok == Decode(text, offset).Scalar?
    ensures ok ==> Decode(text, offset) == Scalar(codepoint, length)
  {
    hide WellFormedChar;
    codepoint, length := 0, 0;
    if offset >= |text| {
      return false, 0, 0;
    }
    var b0 := text[offset];
    var cp, n := 0, 0;
    if b0 <= 0x7F {
      cp, n := b0, 1;
    } else if 0xC2 <= b0 <= 0xDF {
      cp, n := LeadPayload(b0, 2), 2;
    } else if 0xE0 <= b0 <= 0xEF {
      cp, n := LeadPayload(b0, 3), 3;
    } else if 0xF0 <= b0 <= 0xF4 {
      cp, n := LeadPayload(b0, 4), 4;
    } else {
      return false, 0, 0;
    }
    if offset + n > |text| {
      return false, 0, 0;
    }
    ghost var s := text[offset..offset + n];
    var i := 1;
    while i < n
      invariant 1 <= i <= n
      invariant forall j :: 1 <= j < i ==> IsContinuation(s[j])
      invariant cp == Bits(s, n, i)
    {
      var b := text[offset + i];
      assert b == s[i];
      if !IsContinuation(b) {
        TailOfWellFormed(s, i);
        return false, 0, 0;
      }
      cp := cp * 64 + Payload(b);
      i := i + 1;
    }
    RangeTestIsGrammar(s);
    if || (n == 2 && cp < 0x80) || (n == 3 && cp < 0x800) || (n == 4 && cp < 0x10000)
       || cp > 0x10FFFF || 0xD800 <= cp <= 0xDFFF
    {
      return false, 0, 0;
    }
    return true, cp, n;
  }

  // ----- Encoding and decoding are inverses -----

  lemma EncodeSucceeds(cp: nat)
    ensures Encode(cp).Some? <==> IsScalarValue(cp)
  {
  }

  /** The base-64 digits of a four-digit number. */
  lemma Digits(a: nat, b: nat, c: nat, d: nat)
    requires b < 64 && c < 64 && d < 64
    ensures var cp := a * 262144 + b * 4096 + c * 64 + d;
            && cp / 262144 == a && cp / 4096 % 64 == b && cp / 64 % 64 == c && cp % 64 == d
            && cp / 4096 == a * 64 + b && cp / 64 == a * 4096 + b * 64 + c
  {
    var cp := a * 262144 + b * 4096 + c * 64 + d;
    assert cp == (a * 4096 + b * 64 + c) * 64 + d;
    assert cp / 64 == a * 4096 + b * 64 + c;
    assert cp / 4096 == a * 64 + b;
  }

  lemma DivideTwice(x: nat)
    ensures x / 64 / 64 == x / 4096
  {
    var q := x / 64 / 64;
    assert 4096 * q <= x < 4096 * q + 4096;
  }

  lemma DivideThrice(x: nat)
    ensures x / 4096 / 64 == x / 262144
  {
    var q := x / 4096 / 64;
    assert 262144 * q <= x < 262144 * q + 262144;
  }

  lemma LastDigit(x: nat)
    ensures x == x / 64 * 64 + x % 64
  {
  }

  lemma FromDigits(cp: nat)
    ensures cp == cp / 262144 * 262144 + cp / 4096 % 64 * 4096 + cp / 64 % 64 * 64 + cp % 64
    ensures cp == cp / 4096 * 4096 + cp / 64 % 64 * 64 + cp % 64
  {
    DivideTwice(cp);
    DivideThrice(cp);
    LastDigit(cp);
    LastDigit(cp / 64);
    LastDigit(cp / 4096);
  }

  /** The encoding of a number written in base-64 digits. */
  lemma EncodeOfDigits(a: nat, b: nat, c: nat, d: nat)
    requires b < 64 && c < 64 && d < 64 && IsScalarValue(a * 262144 + b * 4096 + c * 64 + d)
    ensures var cp := a * 262144 + b * 4096 + c * 64 + d;
            && (0x80 <= cp <= 0x7FF ==> Encode(cp).value == [0xC0 + c, 0x80 + d])
            && (0x800 <= cp <= 0xFFFF ==> Encode(cp).value == [0xE0 + b, 0x80 + c, 0x80 + d])
            && (0x10000 <= cp ==> Encode(cp).value == [0xF0 + a, 0x80 + b, 0x80 + c, 0x80 + d])
  {
    Digits(a, b, c, d);
  }

  /** The bytes made of the digits of a scalar value are a sequence of the grammar. */
  lemma DigitsAreWellFormed(a: nat, b: nat, c: nat, d: nat)
    requires b < 64 && c < 64 && d < 64 && IsScalarValue(a * 262144 + b * 4096 + c * 64 + d)
    ensures var cp := a * 262144 + b * 4096 + c * 64 + d;
            && (0x80 <= cp <= 0x7FF ==> WellFormedChar([0xC0 + c, 0x80 + d]) && LeadLength(0xC0 + c) == 2)
            && (0x800 <= cp <= 0xFFFF ==>
                  WellFormedChar([0xE0 + b, 0x80 + c, 0x80 + d]) && LeadLength(0xE0 + b) == 3)
            && (0x10000 <= cp ==>
                  WellFormedChar([0xF0 + a, 0x80 + b, 0x80 + c, 0x80 + d]) && LeadLength(0xF0 + a) == 4)
  {
  }

  lemma EncodeIsWellFormed(cp: nat)
    requires IsScalarValue(cp)
    ensures WellFormedChar(Encode(cp).value)
    ensures LeadLength(Encode(cp).value[0]) == |Encode(cp).value|
  {
    var a, b, c, d := cp / 262144, cp / 4096 % 64, cp / 64 % 64, cp % 64;
    FromDigits(cp);
    EncodeOfDigits(a, b, c, d);
    DigitsAreWellFormed(a, b, c, d);
  }

  lemma PayloadOfByte(x: nat)
    requires x < 64
    ensures Payload(0x80 + x) == x
    ensures x < 32 ==> LeadPayload(0xC0 + x, 2) == x
    ensures x < 16 ==> LeadPayload(0xE0 + x, 3) == x
    ensures x < 8 ==> LeadPayload(0xF0 + x, 4) == x
  {
  }

  lemma BitsOfDigits(a: nat, b: nat, c: nat, d: nat)
    requires b < 64 && c < 64 && d < 64 && IsScalarValue(a * 262144 + b * 4096 + c * 64 + d)
    ensures var cp := a * 262144 + b * 4096 + c * 64 + d;
            && (0x80 <= cp <= 0x7FF ==> Bits([0xC0 + c, 0x80 + d], 2, 2) == cp)
            && (0x800 <= cp <= 0xFFFF ==> Bits([0xE0 + b, 0x80 + c, 0x80 + d], 3, 3) == cp)
            && (0x10000 <= cp ==> Bits([0xF0 + a, 0x80 + b, 0x80 + c, 0x80 + d], 4, 4) == cp)
  {
    hide Bits, Payload, LeadPayload;
    var cp := a * 262144 + b * 4096 + c * 64 + d;
    PayloadOfByte(b);
    PayloadOfByte(c);
    PayloadOfByte(d);
    if 0x80 <= cp <= 0x7FF {
      BitsOf2([0xC0 + c, 0x80 + d]);
    } else if 0x800 <= cp <= 0xFFFF {
      BitsOf3([0xE0 + b, 0x80 + c, 0x80 + d]);
    } else if 0x10000 <= cp {
      PayloadOfByte(a);
      BitsOf4([0xF0 + a, 0x80 + b, 0x80 + c, 0x80 + d]);
    }
  }

  lemma BitsOfEncode(cp: nat)
    requires IsScalarValue(cp)
    ensures var s := Encode(cp).value; Bits(s, |s|, |s|) == cp
  {
    FromDigits(cp);
    var a, b, c, d := cp / 262144, cp / 4096 % 64, cp / 64 % 64, cp % 64;
    EncodeOfDigits(a, b, c, d);
    BitsOfDigits(a, b, c, d);
  }

  lemma DecodeOfEncode(cp: nat)
    requires IsScalarValue(cp)
    ensures var s := Encode(cp).value; Decode(s, 0) == Scalar(cp, |s|)
  {
    EncodeIsWellFormed(cp);
    BitsOfEncode(cp);
    var s := Encode(cp).value;
    assert s[0..|s|] == s;
  }

  lemma LeadAndTail(s: Bytes)
    requires WellFormedChar(s)
    ensures LeadLength(s[0]) == |s|
    ensures |s| == 2 ==> s[0] == 0xC0 + LeadPayload(s[0], 2)
    ensures |s| == 3 ==> s[0] == 0xE0 + LeadPayload(s[0], 3)
    ensures |s| == 4 ==> s[0] == 0xF0 + LeadPayload(s[0], 4)
    ensures forall i :: 1 <= i < |s| ==> IsContinuation(s[i]) && s[i] == 0x80 + Payload(s[i])
  {
  }

  lemma EncodeOfBits2(s: Bytes)
    requires |s| == 2 && WellFormedChar(s)
    ensures Encode(Bits(s, 2, 2)) == Some(s)
  {
    hide Encode, Bits;
    LeadAndTail(s);
    BitsOf2(s);
    var c, d := LeadPayload(s[0], 2), Payload(s[1]);
    EncodeOfDigits(0, 0, c, d);
    EncodeSucceeds(Bits(s, 2, 2));
    assert s == [0xC0 + c, 0x80 + d];
  }

  lemma EncodeOfBits3(s: Bytes)
    requires |s| == 3 && WellFormedChar(s)
    ensures Encode(Bits(s, 3, 3)) == Some(s)
  {
    hide Encode, Bits;
    LeadAndTail(s);
    RangeTestIsGrammar(s);
    BitsOf3(s);
    var b, c, d := LeadPayload(s[0], 3), Payload(s[1]), Payload(s[2]);
    EncodeOfDigits(0, b, c, d);
    EncodeSucceeds(Bits(s, 3, 3));
    assert s == [0xE0 + b, 0x80 + c, 0x80 + d];
  }

  lemma EncodeOfBits4(s: Bytes)
    requires |s| == 4 && WellFormedChar(s)
    ensures Encode(Bits(s, 4, 4)) == Some(s)
  {
    hide Encode, Bits;
    LeadAndTail(s);
    RangeTestIsGrammar(s);
    BitsOf4(s);
    var a, b, c, d := LeadPayload(s[0], 4), Payload(s[1]), Payload(s[2]), Payload(s[3]);
    EncodeOfDigits(a, b, c, d);
    EncodeSucceeds(Bits(s, 4, 4));
    assert s == [0xF0 + a, 0x80 + b, 0x80 + c, 0x80 + d];
  }

  lemma EncodeOfWellFormed(s: Bytes)
    requires WellFormedChar(s)
    ensures LeadLength(s[0]) == |s|
    ensures IsScalarValue(Bits(s, |s|, |s|)) && Encode(Bits(s, |s|, |s|)) == Some(s)
  {
    LeadAndTail(s);
    RangeTestIsGrammar(s);
    match |s|
    case 1 => assert s == [s[0]];
    case 2 => EncodeOfBits2(s);
    case 3 => EncodeOfBits3(s);
    case _ => EncodeOfBits4(s);
  }

  /** Decoding succeeds exactly on encodings: it is the inverse of Encode in both directions. */
  lemma DecodeIffEncoding(text: Bytes, offset: nat, cp: nat, n: nat)
    ensures Decode(text, offset) == Scalar(cp, n) <==>
            offset + n <= |text| && Encode(cp) == Some(text[offset..offset + n])
  {
    hide Encode, Bits;
    EncodeSucceeds(cp);
    if Decode(text, offset) == Scalar(cp, n) {
      EncodeOfWellFormed(text[offset..offset + n]);
    }
    if offset + n <= |text| && Encode(cp) == Some(text[offset..offset + n]) {
      var s := text[offset..offset + n];
      DecodeOfEncode(cp);
      EncodeIsWellFormed(cp);
      assert s[0..|s|] == s;
    }
  }
}
