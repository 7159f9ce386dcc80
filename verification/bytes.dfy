/** Bytes, and the optional value used throughout the model. */
module Bytes {
  type byte = x: int | 0 <= x < 256

  datatype Option<+T> = None | Some(value: T)

  /** The first `n` parts of a list of texts, joined in order. */
  function Joined<T>(parts: seq<seq<T>>, n: nat): seq<T>
    requires n <= |parts|
  {
    if n == 0 then [] else Joined(parts, n - 1) + parts[n - 1]
  }

  function Flatten<T>(parts: seq<seq<T>>): seq<T> {
    Joined(parts, |parts|)
  }

  /** The first `n` parts are a prefix of the whole, and the next part follows them. */
  lemma {:induction false} JoinedIsPrefix<T>(parts: seq<seq<T>>, n: nat, m: nat)
    requires n <= m <= |parts|
    ensures Joined(parts, n) <= Joined(parts, m)
    decreases m
  {
    if n < m {
      JoinedIsPrefix(parts, n, m - 1);
    }
  }

  lemma {:induction false} PartSpan<T>(parts: seq<seq<T>>, i: nat)
    requires i < |parts|
    ensures var s, n, m := Flatten(parts), |Joined(parts, i)|, |Joined(parts, i + 1)|;
            n <= m <= |s| && Joined(parts, i) == s[..n] && parts[i] == s[n..m] && Joined(parts, i + 1) == s[..m]
  {
    JoinedIsPrefix(parts, i + 1, |parts|);
  }

  lemma {:induction false} SliceOfSlice<T>(s: seq<T>, from: nat, to: nat, a: nat, b: nat)
    requires from <= to <= |s| && a <= b <= to - from
    ensures s[from..to][a..b] == s[from + a..from + b]
  {
    var window := s[from..to];
    assert forall k :: 0 <= k < b - a ==> window[a..b][k] == window[a + k] == s[from + (a + k)];
  }

  lemma {:induction false} JoinSlices<T>(s: seq<T>, a: nat, b: nat, c: nat)
    requires a <= b <= c <= |s|
    ensures s[a..b] + s[b..c] == s[a..c]
  {
  }
}

/** Well-formed UTF-8 byte sequences, from the grammar in section 4 of RFC 3629. */
module Utf8 {
  import opened Bytes

  /** `10xxxxxx`: the top two bits of a byte are its quotient by 64. */
  predicate IsContinuation(b: byte): (r: bool)
    ensures r <==> 0x80 <= b < 0xC0
  {
    b / 64 == 2
  }

  /** Length of the well-formed character at the head of `s`; 0 when there is none. */
  function CharLen(s: seq<byte>): (n: nat)
    ensures n <= |s| && n <= 4
    ensures n > 0 ==> !IsContinuation(s[0])
    ensures forall k :: 1 <= k < n ==> IsContinuation(s[k])
  {
    if |s| >= 1 && s[0] <= 0x7F then 1
    else if |s| >= 2 && 0xC2 <= s[0] <= 0xDF && IsContinuation(s[1]) then 2
    else if |s| >= 3 && SecondOfThree(s[0], s[1]) && IsContinuation(s[2]) then 3
    else if |s| >= 4 && SecondOfFour(s[0], s[1]) && IsContinuation(s[2]) && IsContinuation(s[3]) then 4
    else 0
  }

  predicate SecondOfThree(lead: byte, second: byte) {
    || (lead == 0xE0 && 0xA0 <= second <= 0xBF)
    || ((0xE1 <= lead <= 0xEC || 0xEE <= lead <= 0xEF) && IsContinuation(second))
    || (lead == 0xED && 0x80 <= second <= 0x9F)
  }

  predicate SecondOfFour(lead: byte, second: byte) {
    || (lead == 0xF0 && 0x90 <= second <= 0xBF)
    || (0xF1 <= lead <= 0xF3 && IsContinuation(second))
    || (lead == 0xF4 && 0x80 <= second <= 0x8F)
  }

  predicate Valid(s: seq<byte>) {
    s == [] || (CharLen(s) > 0 && Valid(s[CharLen(s)..]))
  }

  /** A position where a character may start: the end of the text, or a byte that continues nothing. */
  predicate IsBoundary(s: seq<byte>, at: nat)
    requires at <= |s|
  {
    at == |s| || !IsContinuation(s[at])
  }

  /** Cutting valid text at a boundary leaves two valid texts. */
  lemma {:induction false} SplitAtBoundary(s: seq<byte>, at: nat)
    requires Valid(s) && at <= |s| && IsBoundary(s, at)
    ensures Valid(s[..at]) && Valid(s[at..])
  {
    if at == 0 {
      assert s[..at] == [] && s[at..] == s;
    } else {
      var n := CharLen(s);
      assert at >= n;
      assert IsBoundary(s[n..], at - n);
      SplitAtBoundary(s[n..], at - n);
      ShiftedSlices(s, n, at);
      CharLenOfPrefix(s, at);
    }
  }

  lemma {:induction false} ShiftedSlices<T>(s: seq<T>, n: nat, at: nat)
    requires n <= at <= |s|
    ensures s[n..][..at - n] == s[..at][n..] && s[n..][at - n..] == s[at..]
  {
  }

  /** A prefix that keeps the whole first character keeps its length. */
  lemma {:induction false} CharLenOfPrefix(s: seq<byte>, at: nat)
    requires 0 < CharLen(s) <= at <= |s|
    ensures CharLen(s[..at]) == CharLen(s)
  {
  }

  /** No four consecutive bytes of valid text all continue a character. */
  lemma {:induction false} ContinuationRunsAreShort(s: seq<byte>, at: nat)
    requires Valid(s) && at + 4 <= |s|
    ensures exists k :: at <= k < at + 4 && !IsContinuation(s[k])
  {
    var n := CharLen(s);
    if at >= n {
      ContinuationRunsAreShort(s[n..], at - n);
      var k :| at - n <= k < at - n + 4 && !IsContinuation(s[n..][k]);
      assert s[n..][k] == s[k + n];
    } else if at == 0 {
      assert !IsContinuation(s[0]);
    } else {
      assert n < at + 4 && s[n..] != [];
      assert CharLen(s[n..]) > 0 && s[n..][0] == s[n];
    }
  }
}
