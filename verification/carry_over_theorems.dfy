/** When the carry-over depends only on the bytes fed so far, and what that gives on UTF-8 text. */
module CarryOverTheorems {
  import opened Bytes
  import opened Utf8
  import opened SessionCapture
  import opened BannerDetection

  /** Some 65 consecutive bytes, not at the very start, all continue a character. */
  ghost predicate LongRunAt(s: seq<byte>, at: nat) {
    1 <= at && at + 65 <= |s| && forall k :: at <= k < at + 65 ==> IsContinuation(s[k])
  }

  ghost predicate HasLongRun(s: seq<byte>) {
    exists at: nat :: LongRunAt(s, at)
  }

  /** Whatever the split, the held-back tail is the stream so far from its own cut. */
  lemma {:induction false} TailIsCanonical(rx: Banner, chunks: seq<seq<byte>>, n: nat)
    requires n <= |chunks| && !After(rx, INITIAL, chunks, n).captured && !HasLongRun(Joined(chunks, n))
    ensures var s := Joined(chunks, n); After(rx, INITIAL, chunks, n) == State(s[Cut(s)..], false)
  {
    if n > 0 {
      var s, st, chunk := Joined(chunks, n - 1), After(rx, INITIAL, chunks, n - 1), chunks[n - 1];
      if HasLongRun(s) {
        var at: nat :| LongRunAt(s, at);
        assert LongRunAt(s + chunk, at);
      }
      TailIsCanonical(rx, chunks, n - 1);
      CutCut(s, chunk);
    }
  }

  /** Cutting again after more bytes arrive is the same as cutting once. */
  lemma {:induction false} CutCut(s: seq<byte>, chunk: seq<byte>)
    requires !HasLongRun(s + chunk)
    ensures var buffer := s[Cut(s)..] + chunk; buffer[Cut(buffer)..] == (s + chunk)[Cut(s + chunk)..]
  {
    var whole, from := s + chunk, Cut(s);
    var buffer := s[from..] + chunk;
    assert buffer == whole[from..];
    if |whole| > TAIL_CAP {
      if |buffer| > TAIL_CAP {
      } else {
        CutIsBoundaryLater(s, chunk);
      }
    }
  }

  /** A cut that reached the end of the buffer is still a boundary once more bytes arrive, short of a long run. */
  lemma {:induction false} CutIsBoundaryLater(s: seq<byte>, chunk: seq<byte>)
    requires |s| > TAIL_CAP
    ensures IsBoundary(s + chunk, Cut(s)) || HasLongRun(s + chunk)
  {
    var whole := s + chunk;
    if Cut(s) == |s| < |whole| && IsContinuation(whole[|s|]) {
      assert LongRunAt(whole, |s| - TAIL_CAP);
    }
  }

  /** Any two splits of the same prefix of the stream leave the same state. */
  ghost predicate ChunkingIrrelevant(rx: Banner, s: seq<byte>) {
    forall xs: seq<seq<byte>>, ys: seq<seq<byte>> :: Flatten(xs) == Flatten(ys) && Flatten(xs) <= s ==>
      After(rx, INITIAL, xs, |xs|) == After(rx, INITIAL, ys, |ys|)
  }

  /** On a stream without a banner the state is a function of the bytes so far exactly when no 65
      consecutive bytes past the first all continue a character. */
  lemma {:induction false} ChunkingIrrelevantExactly(rx: Banner, s: seq<byte>)
    requires WellFormed(rx) && rx.find(s) == None
    ensures ChunkingIrrelevant(rx, s) <==> !HasLongRun(s)
  {
    if HasLongRun(s) {
      var at: nat :| LongRunAt(s, at);
      SplitsDisagree(rx, s, at);
    } else {
      forall xs: seq<seq<byte>>, ys: seq<seq<byte>> | Flatten(xs) == Flatten(ys) && Flatten(xs) <= s
        ensures After(rx, INITIAL, xs, |xs|) == After(rx, INITIAL, ys, |ys|)
      {
        PrefixIsQuiet(rx, s, xs);
        PrefixIsQuiet(rx, s, ys);
      }
    }
  }

  lemma {:induction false} PrefixIsQuiet(rx: Banner, s: seq<byte>, chunks: seq<seq<byte>>)
    requires WellFormed(rx) && rx.find(s) == None && !HasLongRun(s) && Flatten(chunks) <= s
    ensures var fed := Flatten(chunks); After(rx, INITIAL, chunks, |chunks|) == State(fed[Cut(fed)..], false)
  {
    var fed := Flatten(chunks);
    assert fed == s[0..|fed|];
    NothingInPrefix(rx, s, |fed|);
    NeverCaptured(rx, chunks, |chunks|);
    if HasLongRun(fed) {
      var at: nat :| LongRunAt(fed, at);
      assert LongRunAt(s, at);
    }
    TailIsCanonical(rx, chunks, |chunks|);
  }

  lemma {:induction false} NothingInPrefix(rx: Banner, s: seq<byte>, n: nat)
    requires WellFormed(rx) && rx.find(s) == None && n <= |s|
    ensures rx.find(s[0..n]) == None
  {
    NothingInside(rx, s, 0, n);
  }

  lemma {:induction false} NeverCaptured(rx: Banner, chunks: seq<seq<byte>>, n: nat)
    requires WellFormed(rx) && rx.find(Flatten(chunks)) == None && n <= |chunks|
    ensures !After(rx, INITIAL, chunks, n).captured
  {
    var _ := UncapturedTail(rx, chunks, n);
  }

  /** Feeding up to the end of a run of 65 in one chunk, or stopping one byte short of it, differ. */
  lemma {:induction false} SplitsDisagree(rx: Banner, s: seq<byte>, at: nat)
    requires WellFormed(rx) && rx.find(s) == None && LongRunAt(s, at)
    ensures !ChunkingIrrelevant(rx, s)
  {
    var end := at + TAIL_CAP + 1;
    OneChunkReleasesRun(rx, s, end);
    TwoChunksHoldAByte(rx, s, end);
    SameBytes(s, end);
    Disagree(rx, s, [s[0..end]], [s[0..end - 1], s[end - 1..end]]);
  }

  lemma {:induction false} SameBytes(s: seq<byte>, end: nat)
    requires 0 < end <= |s|
    ensures Flatten([s[0..end]]) == Flatten([s[0..end - 1], s[end - 1..end]]) == s[0..end] <= s
  {
    JoinSlices(s, 0, end - 1, end);
    FlattenTwo(s[0..end - 1], s[end - 1..end]);
    FlattenOne(s[0..end]);
  }

  lemma {:induction false} Disagree(rx: Banner, s: seq<byte>, xs: seq<seq<byte>>, ys: seq<seq<byte>>)
    requires Flatten(xs) == Flatten(ys) <= s
    requires |After(rx, INITIAL, xs, |xs|).pending| != |After(rx, INITIAL, ys, |ys|).pending|
    ensures !ChunkingIrrelevant(rx, s)
  {
  }

  /** Fed whole, the cut advances over the run to the end of the buffer. */
  lemma {:induction false} OneChunkReleasesRun(rx: Banner, s: seq<byte>, end: nat)
    requires WellFormed(rx) && rx.find(s) == None && TAIL_CAP < end <= |s|
    requires forall k :: end - TAIL_CAP <= k < end ==> IsContinuation(s[k])
    ensures After(rx, INITIAL, [s[0..end]], 1) == Step(rx, INITIAL, s[0..end]).0 == State(s[end..end], false)
  {
    NothingInPrefix(rx, s, end);
    StepUnmatched(rx, INITIAL, s, 0, 0, end);
    assert After(rx, INITIAL, [s[0..end]], 1) == Step(rx, After(rx, INITIAL, [s[0..end]], 0), s[0..end]).0;
  }

  /** Fed one byte short, the first chunk releases everything and the last byte stays held. */
  lemma {:induction false} TwoChunksHoldAByte(rx: Banner, s: seq<byte>, end: nat)
    requires WellFormed(rx) && rx.find(s) == None && TAIL_CAP + 1 < end <= |s|
    requires forall k :: end - 1 - TAIL_CAP <= k < end ==> IsContinuation(s[k])
    ensures |After(rx, INITIAL, [s[0..end - 1], s[end - 1..end]], 2).pending| == 1
  {
    OneChunkReleasesRun(rx, s, end - 1);
    AfterTwo(rx, INITIAL, s[0..end - 1], s[end - 1..end]);
    NothingInside(rx, s, end - 1, end);
    StepUnmatched(rx, State(s[end - 1..end - 1], false), s, end - 1, end - 1, end);
  }

  // ----- Valid text -----

  /** The stream so far is the beginning of some valid text; it may stop inside a character. */
  ghost predicate BeginsValid(s: seq<byte>, text: seq<byte>) {
    Valid(text) && s <= text
  }

  lemma {:induction false} ShortRuns(s: seq<byte>, text: seq<byte>)
    requires BeginsValid(s, text)
    ensures !HasLongRun(s)
  {
    forall at: nat | LongRunAt(s, at) ensures false {
      ContinuationRunsAreShort(text, at);
    }
  }

  /** The cut of valid text is within three bytes of the cap, and never reaches the end of the buffer. */
  lemma {:induction false} CutOfText(s: seq<byte>, text: seq<byte>)
    requires BeginsValid(s, text)
    ensures IsBoundary(text, Cut(s))
    ensures |s| > TAIL_CAP ==> |s| - TAIL_CAP <= Cut(s) <= |s| - TAIL_CAP + 3
  {
    if |s| > TAIL_CAP {
      ContinuationRunsAreShort(text, |s| - TAIL_CAP);
    } else if text != [] {
      assert CharLen(text) > 0;
    }
  }

  /** On valid text: the held tail is the stream's end from the first boundary within 64 bytes of it,
      61 to 64 bytes long once anything was released. */
  lemma {:induction false} HeldTailOfText(rx: Banner, chunks: seq<seq<byte>>, n: nat, text: seq<byte>)
    requires n <= |chunks| && BeginsValid(Joined(chunks, n), text)
    requires !After(rx, INITIAL, chunks, n).captured
    ensures var s, held := Joined(chunks, n), After(rx, INITIAL, chunks, n).pending;
            && held == s[Cut(s)..]
            && IsBoundary(text, Cut(s))
            && Released(rx, INITIAL, chunks, n) == s[..Cut(s)]
            && (Released(rx, INITIAL, chunks, n) != [] ==> 61 <= |held| <= 64)
  {
    var s := Joined(chunks, n);
    ShortRuns(s, text);
    TailIsCanonical(rx, chunks, n);
    CutOfText(s, text);
    Conservation(rx, chunks, n);
    SameSuffix(Released(rx, INITIAL, chunks, n), s, Cut(s));
  }

  lemma {:induction false} SameSuffix<T>(head: seq<T>, s: seq<T>, at: nat)
    requires at <= |s| && head + s[at..] == s
    ensures head == s[..at]
  {
    assert |head| == at;
    assert head == (head + s[at..])[..at];
  }

  /** On valid text every piece released before the latch is itself valid text. */
  lemma {:induction false} ReleasedPiecesAreText(rx: Banner, chunks: seq<seq<byte>>, i: nat, text: seq<byte>)
    requires i < |chunks| && BeginsValid(Joined(chunks, i + 1), text)
    requires !After(rx, INITIAL, chunks, i + 1).captured
    ensures Valid(Out(rx, INITIAL, chunks, i).released)
  {
    var s, t := Joined(chunks, i), Joined(chunks, i + 1);
    HeldTailOfText(rx, chunks, i + 1, text);
    HeldTailOfText(rx, chunks, i, text);
    var piece := Out(rx, INITIAL, chunks, i).released;
    assert s[..Cut(s)] + piece == t[..Cut(t)];
    PieceOfText(text, Cut(s), Cut(t), s[..Cut(s)], piece);
  }

  lemma {:induction false} PieceOfText(text: seq<byte>, from: nat, to: nat, head: seq<byte>, piece: seq<byte>)
    requires Valid(text) && from <= |text| && to <= |text| && IsBoundary(text, from) && IsBoundary(text, to)
    requires head + piece == text[..to] && |head| == from
    ensures Valid(piece)
  {
    SplitAtBoundary(text, to);
    assert IsBoundary(text[..to], from);
    SplitAtBoundary(text[..to], from);
    assert piece == text[..to][from..];
  }
}
