/** `cpp/include/sesame/hex.hpp`: lowercase hexadecimal text of byte strings. A byte is an
    integer below 256, so that the shift and mask of the C++ code are `/ 16` and `% 16`. */
module Hex {
  import opened Wrappers

  type byte = b: int | 0 <= b < 256
  type Bytes = seq<byte>

  const LUT: string := "0123456789abcdef"

  predicate IsHexDigit(c: char) {
    '0' <= c <= '9' || 'a' <= c <= 'f' || 'A' <= c <= 'F'
  }

  predicate IsLowerHexDigit(c: char) { '0' <= c <= '9' || 'a' <= c <= 'f' }

  predicate IsHexText(s: string) {
    |s| % 2 == 0 && forall i :: 0 <= i < |s| ==> IsHexDigit(s[i])
  }

  /** The value of a hex digit, or -1: the local function `val` of the decoder. */
  function DigitValue(c: char): int {
    if '0' <= c <= '9' then c as int - '0' as int
    else if 'a' <= c <= 'f' then c as int - 'a' as int + 10
    else if 'A' <= c <= 'F' then c as int - 'A' as int + 10
    else -1
  }

  /** The lowercase digit for a value below 16. */
  function HexChar(k: int): (c: char)
    requires 0 <= k < 16
    ensures IsLowerHexDigit(c)
    ensures DigitValue(c) == k
  {
    if k < 10 then (k + '0' as int) as char else (k - 10 + 'a' as int) as char
  }

  /** The encoder's table holds those digits. */
  lemma LutHoldsDigits(k: int)
    requires 0 <= k < 16
    ensures LUT[k] == HexChar(k)
  {
  }

  /** The digits in the order of their values, in either case. */
  lemma DigitsAreTheAlphabet(c: char, k: int)
    requires 0 <= k < 16
    ensures DigitValue(c) == k <==> c == "0123456789abcdef"[k] || c == "0123456789ABCDEF"[k]
    ensures HexChar(k) == "0123456789abcdef"[k]
    ensures DigitValue(c) < 16
  {
    LutHoldsDigits(k);
  }

  /** The characters that are digits. */
  lemma HexDigitsAreThese(c: char)
    ensures IsHexDigit(c) <==> c in "0123456789abcdefABCDEF"
    ensures IsLowerHexDigit(c) <==> c in "0123456789abcdef"
    ensures IsHexDigit(c) <==> DigitValue(c) >= 0
  {
    if IsHexDigit(c) {
      var v := DigitValue(c);
      assert c == "0123456789abcdefABCDEF"[if 'A' <= c <= 'F' then v + 6 else v];
      assert IsLowerHexDigit(c) ==> c == "0123456789abcdef"[v];
    }
  }

  function Encode(data: Bytes): string {
    if data == [] then "" else [HexChar(data[0] / 16), HexChar(data[0] % 16)] + Encode(data[1..])
  }

  function Decode(s: string): Option<Bytes> {
    if s == "" then Some([])
    else if |s| == 1 || DigitValue(s[0]) < 0 || DigitValue(s[1]) < 0 then None
    else
      var rest := Decode(s[2..]);
      if rest.None? then None else Some([DigitValue(s[0]) * 16 + DigitValue(s[1])] + rest.value)
  }

  /** ASCII lowercase. */
  function LowerChar(c: char): char {
    if 'A' <= c <= 'Z' then (c as int - 'A' as int + 'a' as int) as char else c
  }

  /** The capital letters become the small ones, and nothing else changes. */
  lemma LowerCharIsAscii(c: char, k: int)
    requires 0 <= k < 26
    ensures c == "ABCDEFGHIJKLMNOPQRSTUVWXYZ"[k] ==> LowerChar(c) == "abcdefghijklmnopqrstuvwxyz"[k]
    ensures c !in "ABCDEFGHIJKLMNOPQRSTUVWXYZ" ==> LowerChar(c) == c
  {
    if 'A' <= c <= 'Z' {
      assert c == "ABCDEFGHIJKLMNOPQRSTUVWXYZ"[c as int - 'A' as int];
    }
  }

  function Lower(s: string): (r: string)
    ensures |r| == |s|
  {
    seq(|s|, i requires 0 <= i < |s| => LowerChar(s[i]))
  }

  lemma EncodeFirst(data: Bytes)
    requires data != []
    ensures Encode(data) == Encode([data[0]]) + Encode(data[1..])
  {
    assert [data[0]][1..] == [];
  }

  lemma {:induction false} EncodeAppend(a: Bytes, b: Bytes)
    ensures Encode(a + b) == Encode(a) + Encode(b)
  {
    if a == [] {
      assert a + b == b;
    } else {
      EncodeAppend(a[1..], b);
      EncodeFirst(a);
      EncodeFirst(a + b);
      assert (a + b)[1..] == a[1..] + b;
    }
  }

  /** Byte `i` stands at characters `2 * i` and `2 * i + 1`, high half first. */
  lemma {:induction false} EncodeByPosition(data: Bytes, i: nat)
    requires i < |data|
    ensures |Encode(data)| == 2 * |data|
    ensures Encode(data)[2 * i] == "0123456789abcdef"[data[i] / 16]
    ensures Encode(data)[2 * i + 1] == "0123456789abcdef"[data[i] % 16]
  {
    if |data| == 1 {
    } else {
      EncodeByPosition(data[1..], if i == 0 then 0 else i - 1);
    }
    LutHoldsDigits(data[i] / 16);
    LutHoldsDigits(data[i] % 16);
  }

  method HexEncode(data: Bytes) returns (out: string)
    ensures out == Encode(data)
  {
    out := "";
    for i := 0 to |data|
      invariant out == Encode(data[..i])
    {
      EncodeAppend(data[..i], [data[i]]);
      assert data[..i + 1] == data[..i] + [data[i]];
      LutHoldsDigits(data[i] / 16);
      LutHoldsDigits(data[i] % 16);
      out := out + [LUT[data[i] / 16]];
      out := out + [LUT[data[i] % 16]];
    }
    assert data[..|data|] == data;
  }

  lemma HexTextSplits(s: string)
    requires |s| >= 2
    ensures IsHexText(s) <==> IsHexDigit(s[0]) && IsHexDigit(s[1]) && IsHexText(s[2..])
  {
  }

  lemma HexCharOfDigit(c: char)
    requires IsHexDigit(c)
    ensures 0 <= DigitValue(c) < 16 && HexChar(DigitValue(c)) == LowerChar(c)
  {
  }

  lemma DigitsReprint(c: char, d: char)
    requires IsHexDigit(c) && IsHexDigit(d)
    ensures var b := DigitValue(c) * 16 + DigitValue(d);
            0 <= b < 256 && HexChar(b / 16) == LowerChar(c) && HexChar(b % 16) == LowerChar(d)
  {
    HexCharOfDigit(c);
    HexCharOfDigit(d);
    var hi, lo := DigitValue(c), DigitValue(d);
    assert (hi * 16 + lo) / 16 == hi && (hi * 16 + lo) % 16 == lo;
  }

  lemma LowerSplits(s: string)
    requires |s| >= 2
    ensures Lower(s) == [LowerChar(s[0]), LowerChar(s[1])] + Lower(s[2..])
  {
  }

  lemma EncodeStep(b: byte, rest: Bytes)
    ensures Encode([b] + rest) == [HexChar(b / 16), HexChar(b % 16)] + Encode(rest)
  {
    assert ([b] + rest)[1..] == rest;
  }

  lemma DecodedReprints(s: string)
    requires |s| >= 2 && IsHexDigit(s[0]) && IsHexDigit(s[1])
    requires Decode(s[2..]).Some? && Encode(Decode(s[2..]).value) == Lower(s[2..])
    ensures Decode(s).Some? && Encode(Decode(s).value) == Lower(s)
  {
    DigitsReprint(s[0], s[1]);
    var b: byte, rest := DigitValue(s[0]) * 16 + DigitValue(s[1]), Decode(s[2..]).value;
    assert Decode(s) == Some([b] + rest);
    EncodeStep(b, rest);
    LowerSplits(s);
  }

  /** Decoding succeeds exactly on hex texts, and then re-encodes to the lowercased text. */
  lemma {:induction false} DecodeIsExact(s: string)
    ensures Decode(s).Some? <==> IsHexText(s)
    ensures Decode(s).Some? ==> Encode(Decode(s).value) == Lower(s) && |Decode(s).value| * 2 == |s|
    decreases |s|
  {
    if |s| < 2 {
    } else {
      DecodeIsExact(s[2..]);
      HexTextSplits(s);
      if Decode(s).Some? {
        DecodedReprints(s);
      }
    }
  }

  /** Decoding undoes encoding. */
  lemma {:induction false} DecodeEncode(data: Bytes)
    ensures Decode(Encode(data)) == Some(data)
    ensures |Encode(data)| == 2 * |data|
  {
    if data == [] {
    } else {
      DecodeEncode(data[1..]);
      var s := Encode(data);
      assert s[2..] == Encode(data[1..]);
      assert data[0] / 16 * 16 + data[0] % 16 == data[0];
      assert [data[0]] + data[1..] == data;
    }
  }

  /** Encoded text is made of lowercase hex digits. */
  lemma {:induction false} EncodeIsLowercaseHex(data: Bytes)
    ensures forall i :: 0 <= i < |Encode(data)| ==> IsLowerHexDigit(Encode(data)[i])
  {
    if data == [] {
    } else {
      EncodeIsLowercaseHex(data[1..]);
    }
  }

  /** Only hex digits have lowercase hex digits as their lowercase form. */
  lemma LowerOfHex(s: string, data: Bytes)
    requires Lower(s) == Encode(data)
    ensures IsHexText(s)
  {
    DecodeEncode(data);
    EncodeIsLowercaseHex(data);
    forall i | 0 <= i < |s|
      ensures IsHexDigit(s[i])
    {
      assert Lower(s)[i] == LowerChar(s[i]);
    }
  }

  /** A text decodes to given bytes exactly when its lowercase form is their encoding. */
  lemma DecodesTo(s: string, data: Bytes)
    ensures Decode(s) == Some(data) <==> Lower(s) == Encode(data)
  {
    DecodeIsExact(s);
    DecodeEncode(data);
    if Lower(s) == Encode(data) {
      LowerOfHex(s, data);
      DecodeEncode(Decode(s).value);
    }
  }

  /** One turn of the decoder's loop: two digits make a byte. */
  lemma DecodeStep(s: string, i: nat)
    requires i + 1 < |s|
    ensures var hi, lo := DigitValue(s[i]), DigitValue(s[i + 1]);
            Decode(s[i..]) == if hi < 0 || lo < 0 || Decode(s[i + 2..]).None? then None
                              else Some([hi * 16 + lo] + Decode(s[i + 2..]).value)
  {
    assert s[i..][2..] == s[i + 2..];
  }

  /** What has been decoded, before what is left. */
  function Prepend(bytes: Bytes, rest: Option<Bytes>): Option<Bytes> {
    if rest.None? then None else Some(bytes + rest.value)
  }

  lemma PrependOne(bytes: Bytes, b: byte, rest: Bytes)
    ensures bytes + ([b] + rest) == bytes + [b] + rest
  {
  }

  method HexDecode(s: string) returns (out: Option<Bytes>)
    ensures out == Decode(s)
  {
    if |s| % 2 != 0 {
      DecodeIsExact(s);
      return None;
    }
    var bytes: Bytes := [];
    var i := 0;
    assert s[0..] == s && (Decode(s).Some? ==> [] + Decode(s).value == Decode(s).value);
    while i < |s|
      invariant 0 <= i <= |s| && i % 2 == 0
      invariant Decode(s) == Prepend(bytes, Decode(s[i..]))
    {
      var hi := DigitValue(s[i]);
      var lo := DigitValue(s[i + 1]);
      DecodeStep(s, i);
      if hi < 0 || lo < 0 {
        return None;
      }
      if Decode(s[i + 2..]).Some? {
        PrependOne(bytes, hi * 16 + lo, Decode(s[i + 2..]).value);
      }
      bytes := bytes + [hi * 16 + lo];
      i := i + 2;
    }
    assert bytes + [] == bytes;
    out := Some(bytes);
  }
}
