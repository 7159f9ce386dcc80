/** The blanks the scrubber skips, told by code point, and where a single quote opens a span. */
module ProseBlanks {
  import opened Bytes
  import opened LogScanner
  import opened QuoteLexer
  import opened Utf8Encoding

  /** The Unicode White_Space property. */
  predicate IsWhiteSpace(cp: int) {
    || 0x09 <= cp <= 0x0D || cp == 0x20 || cp == 0x85 || cp == 0xA0 || cp == 0x1680
    || 0x2000 <= cp <= 0x200A || cp == 0x2028 || cp == 0x2029 || cp == 0x202F || cp == 0x205F || cp == 0x3000
  }

  predicate AllWhiteSpace(cps: seq<int>) {
    forall k :: 0 <= k < |cps| ==> IsWhiteSpace(cps[k])
  }

  /** `s[from..n]` ends with the encoding of `cp`. */
  predicate EndsWith(s: Text, from: nat, n: nat, cp: int) {
    IsScalar(cp) && EndsWithText(s, from, n, Encode(cp))
  }

  predicate EndsWithText(s: Text, from: nat, n: nat, code: Text) {
    from + |code| <= n <= |s| && forall k :: 0 <= k < |code| ==> s[n - |code| + k] == code[k]
  }

  lemma {:induction false} WideIsWhite(a: byte, b: byte, c: byte) returns (cp: int)
    requires IsWideSpace(a, b, c)
    ensures IsWhiteSpace(cp) && Encode(cp) == [a, b, c]
  {
    if a == 0xE1 {
      cp := 0x1680;
    } else if a == 0xE3 {
      cp := 0x3000;
    } else if b == 0x81 {
      cp := 0x205F;
    } else {
      var low: int := c - 0x80;
      cp := 0x2000 + low;
    }
  }

  lemma {:induction false} NarrowIsWhite(c: byte, wide: bool)
    requires if wide then c == 0x85 || c == 0xA0 else 0x09 <= c <= 0x0D || c == 0x20
    ensures IsWhiteSpace(c) && Encode(c) == if wide then [0xC2, c] else [c]
  {
  }

  lemma {:induction false} SpaceIsWhite(s: Text, from: nat, n: nat) returns (cp: int)
    requires from <= n <= |s| && SpaceAtEnd(s, from, n) > 0
    ensures IsWhiteSpace(cp) && EndsWith(s, from, n, cp) && |Encode(cp)| == SpaceAtEnd(s, from, n)
  {
    var k := SpaceAtEnd(s, from, n);
    if k == 3 {
      cp := WideIsWhite(s[n - 3], s[n - 2], s[n - 1]);
    } else {
      NarrowIsWhite(s[n - 1], k == 2);
      cp := s[n - 1];
    }
  }

  lemma {:induction false} WhiteIsSpace(s: Text, from: nat, n: nat, cp: int)
    requires from <= n <= |s| && IsWhiteSpace(cp) && EndsWith(s, from, n, cp)
    ensures SpaceAtEnd(s, from, n) == |Encode(cp)|
  {
    var code := Encode(cp);
    assert s[n - |code| + 0] == code[0];
    assert |code| > 1 ==> s[n - |code| + 1] == code[1];
    assert |code| > 2 ==> s[n - |code| + 2] == code[2];
  }

  /** A text is blank exactly when it is the encoding of white-space code points. */
  lemma {:induction false} BlankExactly(s: Text, a: nat, b: nat)
    requires a <= b <= |s|
    ensures Blank(s, a, b) <==> exists cps :: AllWhiteSpace(cps) && AllScalars(cps) && s[a..b] == EncodeAll(cps)
  {
    if Blank(s, a, b) {
      var cps := BlankIsWhite(s, a, b);
    }
    if cps :| AllWhiteSpace(cps) && AllScalars(cps) && s[a..b] == EncodeAll(cps) {
      WhiteIsBlank(s, a, b, cps);
    }
  }

  lemma {:induction false} SliceIs(s: Text, at: nat, part: Text)
    requires at + |part| <= |s| && forall k :: 0 <= k < |part| ==> s[at + k] == part[k]
    ensures s[at..at + |part|] == part
  {
  }

  lemma {:induction false} OneMoreEncoded(s: Text, a: nat, b: nat, before: seq<int>, cp: int)
    requires AllScalars(before) && EndsWith(s, a, b, cp) && s[a..b - |Encode(cp)|] == EncodeAll(before)
    ensures s[a..b] == EncodeAll(before + [cp])
  {
    SliceIs(s, b - |Encode(cp)|, Encode(cp));
    JoinSlices(s, a, b - |Encode(cp)|, b);
    EncodeSnoc(before, cp);
  }

  lemma {:induction false} BlankIsWhite(s: Text, a: nat, b: nat) returns (cps: seq<int>)
    requires a <= b <= |s| && Blank(s, a, b)
    ensures AllWhiteSpace(cps) && AllScalars(cps) && s[a..b] == EncodeAll(cps)
    decreases b
  {
    BlankOneMore(s, a, b);
    if a == b {
      return [];
    }
    var cp := SpaceIsWhite(s, a, b);
    var before := BlankIsWhite(s, a, b - SpaceAtEnd(s, a, b));
    OneMoreEncoded(s, a, b, before, cp);
    cps := before + [cp];
  }

  lemma {:induction false} SplitLast(cps: seq<int>) returns (before: seq<int>, cp: int)
    requires cps != [] && AllWhiteSpace(cps) && AllScalars(cps)
    ensures |before| < |cps| && AllWhiteSpace(before) && AllScalars(before) && IsWhiteSpace(cp) && IsScalar(cp)
    ensures EncodeAll(cps) == EncodeAll(before) + Encode(cp)
  {
    before, cp := cps[..|cps| - 1], cps[|cps| - 1];
    assert cps == before + [cp];
    EncodeSnoc(before, cp);
  }

  lemma {:induction false} WhiteIsBlank(s: Text, a: nat, b: nat, cps: seq<int>)
    requires a <= b <= |s| && AllWhiteSpace(cps) && AllScalars(cps) && s[a..b] == EncodeAll(cps)
    ensures Blank(s, a, b)
    decreases |cps|
  {
    BlankOneMore(s, a, b);
    if cps == [] {
      assert |s[a..b]| == 0;
    } else {
      var before, cp := SplitLast(cps);
      SuffixEnds(s, a, b, EncodeAll(before), Encode(cp));
      WhiteIsSpace(s, a, b, cp);
      WhiteIsBlank(s, a, b - |Encode(cp)|, before);
    }
  }

  lemma {:induction false} BlankOneMore(s: Text, a: nat, b: nat)
    requires a <= b <= |s|
    ensures SpaceAtEnd(s, a, b) > 0 ==> (Blank(s, a, b) <==> Blank(s, a, b - SpaceAtEnd(s, a, b)))
    ensures SpaceAtEnd(s, a, b) == 0 ==> (Blank(s, a, b) <==> a == b)
  {
  }

  lemma {:induction false} SuffixEnds(s: Text, a: nat, b: nat, head: Text, code: Text)
    requires a <= b <= |s| && s[a..b] == head + code
    ensures EndsWithText(s, a, b, code) && s[a..b - |code|] == head
  {
    var whole, at := s[a..b], |head|;
    SliceOfSlice(s, a, b, 0, at);
    assert whole[0..at] == head;
    forall k | 0 <= k < |code| ensures s[b - |code| + k] == code[k] {
      assert whole[at + k] == (head + code)[at + k];
    }
  }

  // ----- Single quotes -----

  /** A space, tab or line break. */
  predicate IsBlankByte(c: byte) {
    c == 0x20 || c == 0x09 || c == 0x0A || c == 0x0D
  }

  /** `s[j..at]` is such blanks after a `=`, a `:` or nothing. */
  predicate BlanksAfterSeparator(s: Text, at: nat, j: nat) {
    && j <= at <= |s| && (forall k :: j <= k < at ==> IsBlankByte(s[k]))
    && (j == 0 || s[j - 1] == 0x3D || s[j - 1] == 0x3A)
  }

  /** A single quote opens a span exactly when only such blanks separate it from `=`, `:` or the line's start. */
  lemma {:induction false} OpensExactly(s: Text, at: nat)
    requires at <= |s|
    ensures OpensSingleQuote(s, at) <==> exists j :: BlanksAfterSeparator(s, at, j)
  {
    if OpensSingleQuote(s, at) {
      var j := SeparatorBefore(s, at);
    }
    forall j | BlanksAfterSeparator(s, at, j) ensures OpensSingleQuote(s, at) {
      BlanksOpen(s, at, j);
    }
  }

  lemma {:induction false} SeparatorBefore(s: Text, at: nat) returns (j: nat)
    requires at <= |s| && OpensSingleQuote(s, at)
    ensures BlanksAfterSeparator(s, at, j)
  {
    if at > 0 && IsBlankByte(s[at - 1]) {
      j := SeparatorBefore(s, at - 1);
    } else {
      j := at;
    }
  }

  lemma {:induction false} BlanksOpen(s: Text, at: nat, j: nat)
    requires BlanksAfterSeparator(s, at, j)
    ensures OpensSingleQuote(s, at)
    decreases at
  {
    if j < at {
      assert IsBlankByte(s[at - 1]);
      BlanksOpen(s, at - 1, j);
    }
  }
}
