/** UTF-8 texts are encoded code points: the encoding of section 3 of RFC 3629 against the grammar of its section 4. */
module Utf8Encoding {
  import opened Bytes
  import opened Utf8

  predicate IsScalar(cp: int) {
    0 <= cp < 0xD800 || 0xE000 <= cp < 0x11_0000
  }

  function Encode(cp: nat): (code: seq<byte>)
    requires cp < 0x11_0000
    ensures 1 <= |code| <= 4
  {
    if cp < 0x80 then [cp]
    else if cp < 0x800 then [0xC0 + cp / 64, 0x80 + cp % 64]
    else if cp < 0x1_0000 then [0xE0 + cp / 4096, 0x80 + cp / 64 % 64, 0x80 + cp % 64]
    else [0xF0 + cp / 26_2144, 0x80 + cp / 4096 % 64, 0x80 + cp / 64 % 64, 0x80 + cp % 64]
  }

  predicate AllScalars(cps: seq<int>) {
    forall k :: 0 <= k < |cps| ==> IsScalar(cps[k])
  }

  /** The code points encoded one after another. */
  function EncodeAll(cps: seq<int>): seq<byte>
    requires AllScalars(cps)
  {
    if cps == [] then [] else Encode(cps[0]) + EncodeAll(cps[1..])
  }

  lemma {:induction false} ThreeAreRead(cp: int)
    requires 0x800 <= cp < 0x1_0000 && IsScalar(cp)
    ensures var code := Encode(cp); |code| == 3 && SecondOfThree(code[0], code[1]) && IsContinuation(code[2])
  {
  }

  lemma {:induction false} FourAreRead(cp: int)
    requires 0x1_0000 <= cp < 0x11_0000
    ensures var code := Encode(cp);
            |code| == 4 && SecondOfFour(code[0], code[1]) && IsContinuation(code[2]) && IsContinuation(code[3])
  {
  }

  lemma {:induction false} HeadOf(code: seq<byte>, rest: seq<byte>)
    ensures var s := code + rest; |s| >= |code| && forall k :: 0 <= k < |code| ==> s[k] == code[k]
  {
  }

  /** The grammar reads exactly one encoded code point. */
  lemma {:induction false} EncodedIsRead(cp: int, rest: seq<byte>)
    requires IsScalar(cp)
    ensures CharLen(Encode(cp) + rest) == |Encode(cp)|
  {
    HeadOf(Encode(cp), rest);
    if 0x800 <= cp < 0x1_0000 {
      ThreeAreRead(cp);
    } else if 0x1_0000 <= cp {
      FourAreRead(cp);
    }
  }

  lemma {:induction false} ReadTwo(a: int, b: int) returns (cp: int)
    requires 0xC2 <= a <= 0xDF && 0x80 <= b < 0xC0
    ensures IsScalar(cp) && Encode(cp) == [a, b]
  {
    cp := (a - 0xC0) * 64 + (b - 0x80);
  }

  lemma {:induction false} ReadThree(a: byte, b: byte, c: byte) returns (cp: int)
    requires SecondOfThree(a, b) && 0x80 <= c < 0xC0
    ensures IsScalar(cp) && Encode(cp) == [a, b, c]
  {
    var x: int, y: int, z: int := a - 0xE0, b - 0x80, c - 0x80;
    cp := x * 4096 + y * 64 + z;
    assert cp / 4096 == x;
    assert cp / 64 == x * 64 + y && cp % 64 == z;
  }

  lemma {:induction false} ReadFour(a: byte, b: byte, c: byte, d: byte) returns (cp: int)
    requires SecondOfFour(a, b) && 0x80 <= c < 0xC0 && 0x80 <= d < 0xC0
    ensures IsScalar(cp) && Encode(cp) == [a, b, c, d]
  {
    var x: int, y: int, z: int, w: int := a - 0xF0, b - 0x80, c - 0x80, d - 0x80;
    cp := x * 26_2144 + y * 4096 + z * 64 + w;
    assert cp / 26_2144 == x;
    assert cp / 4096 == x * 64 + y;
    assert cp / 64 == x * 4096 + y * 64 + z && cp % 64 == w;
  }

  /** What it reads is the encoding of some code point. */
  lemma {:induction false} ReadIsEncoded(s: seq<byte>) returns (cp: int)
    requires CharLen(s) > 0
    ensures IsScalar(cp) && s[..CharLen(s)] == Encode(cp)
  {
    match CharLen(s)
    case 1 => cp := s[0];
    case 2 => cp := ReadTwo(s[0], s[1]);
    case 3 => cp := ReadThree(s[0], s[1], s[2]);
    case 4 => cp := ReadFour(s[0], s[1], s[2], s[3]);
  }

  lemma {:induction false} ValidIsEncoded(s: seq<byte>) returns (cps: seq<int>)
    requires Valid(s)
    ensures AllScalars(cps) && s == EncodeAll(cps)
  {
    if s == [] {
      return [];
    }
    var n := CharLen(s);
    var cp := ReadIsEncoded(s);
    var rest := ValidIsEncoded(s[n..]);
    cps := [cp] + rest;
    assert cps[1..] == rest;
    assert s == s[..n] + s[n..];
  }

  lemma {:induction false} ReadThenValid(cp: int, rest: seq<byte>)
    requires IsScalar(cp) && Valid(rest)
    ensures Valid(Encode(cp) + rest)
  {
    EncodedIsRead(cp, rest);
    assert (Encode(cp) + rest)[|Encode(cp)|..] == rest;
  }

  lemma {:induction false} EncodedIsValid(cps: seq<int>)
    requires AllScalars(cps)
    ensures Valid(EncodeAll(cps))
  {
    if cps != [] {
      EncodedIsValid(cps[1..]);
      ReadThenValid(cps[0], EncodeAll(cps[1..]));
    }
  }

  /** Valid texts are exactly the encodings of code points other than surrogates. */
  lemma {:induction false} ValidExactly(s: seq<byte>)
    ensures Valid(s) <==> exists cps :: AllScalars(cps) && s == EncodeAll(cps)
  {
    if Valid(s) {
      var cps := ValidIsEncoded(s);
    }
    if cps :| AllScalars(cps) && s == EncodeAll(cps) {
      EncodedIsValid(cps);
    }
  }

  lemma {:induction false} EncodeSnoc(cps: seq<int>, cp: int)
    requires AllScalars(cps) && IsScalar(cp)
    ensures EncodeAll(cps + [cp]) == EncodeAll(cps) + Encode(cp)
  {
    if cps == [] {
      assert [cp][1..] == [];
    } else {
      EncodeSnoc(cps[1..], cp);
      assert (cps + [cp])[1..] == cps[1..] + [cp];
    }
  }
}
