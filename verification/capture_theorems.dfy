/** Banner detection does not depend on how the stream is cut into chunks. */
module BannerDetection {
  import opened Bytes
  import opened SessionCapture

  /** [a, b) is the stream's first banner: no banner starts earlier or ends earlier, or shares its start.
      When banners do not overlap, the leftmost one is first in this sense. */
  ghost predicate FirstBanner(rx: Banner, s: seq<byte>, a: nat, b: nat) {
    && MatchAt(rx, s, a, b)
    && forall c: nat, d: nat :: MatchAt(rx, s, c, d) ==> a <= c && b <= d && (c == a ==> d == b)
  }

  /** [a, b) is the stream's first banner, and every other one starts at or after its end. */
  ghost predicate LeadingBanner(rx: Banner, s: seq<byte>, a: nat, b: nat) {
    MatchAt(rx, s, a, b) && forall c: nat, d: nat :: MatchAt(rx, s, c, d) ==> (c, d) == (a, b) || b <= c
  }

  /** On a stream whose banners do not overlap, the leftmost banner leads. */
  lemma {:induction false} LeftmostLeads(rx: Banner, s: seq<byte>, a: nat, b: nat)
    requires WellFormed(rx) && rx.find(s) == Some(Span(a, b))
    requires forall c: nat, d: nat :: MatchAt(rx, s, c, d) ==> (c, d) == (a, b) || d <= a || b <= c
    ensures LeadingBanner(rx, s, a, b)
  {
    assert IsLeftmost(rx, s, rx.find(s));
    forall c: nat, d: nat | MatchAt(rx, s, c, d) ensures (c, d) == (a, b) || b <= c {
      assert |s[c..d]| > 0 && |s[a..b]| > 0;
    }
  }

  lemma {:induction false} LeadingIsFirst(rx: Banner, s: seq<byte>, a: nat, b: nat)
    requires WellFormed(rx) && LeadingBanner(rx, s, a, b)
    ensures a < b && FirstBanner(rx, s, a, b)
  {
    assert |s[a..b]| > 0;
  }

  lemma {:induction false} MatchInWindow(rx: Banner, s: seq<byte>, from: nat, to: nat, a: nat, b: nat)
    requires from <= to <= |s|
    ensures MatchAt(rx, s[from..to], a, b) <==> from + b <= to && MatchAt(rx, s, from + a, from + b)
  {
    if a <= b && from + b <= to {
      SliceOfSlice(s, from, to, a, b);
    }
  }

  /** Searching a window of the stream finds the leftmost banner that lies inside it. */
  lemma {:induction false} WindowSearch(rx: Banner, s: seq<byte>, from: nat, to: nat)
    requires WellFormed(rx) && from <= to <= |s|
    ensures match rx.find(s[from..to])
            case None => forall a: nat, b: nat :: from <= a && b <= to ==> !MatchAt(rx, s, a, b)
            case Some(span) =>
              && from + span.end <= to && MatchAt(rx, s, from + span.start, from + span.end)
              && forall a: nat, b: nat :: from <= a && b <= to && MatchAt(rx, s, a, b) ==> from + span.start <= a
  {
    var window := s[from..to];
    var found := rx.find(window);
    assert IsLeftmost(rx, window, found);
    forall a: nat, b: nat | from <= a && b <= to && MatchAt(rx, s, a, b)
      ensures found.Some? && from + found.value.start <= a
    {
      MatchInWindow(rx, s, from, to, a - from, b - from);
      assert MatchAt(rx, window, a - from, b - from);
    }
    if found.Some? {
      MatchInWindow(rx, s, from, to, found.value.start, found.value.end);
    }
  }

  /** Before the first banner [a, b) is complete, no window of the stream holds any banner. */
  lemma {:induction false} NothingYet(rx: Banner, s: seq<byte>, from: nat, to: nat, a: nat, b: nat)
    requires WellFormed(rx) && FirstBanner(rx, s, a, b)
    requires from <= to < b && to <= |s|
    ensures rx.find(s[from..to]) == None
  {
    WindowSearch(rx, s, from, to);
  }

  /** Once it is complete, any window that still holds its start yields it. */
  lemma {:induction false} FoundInWindow(rx: Banner, s: seq<byte>, from: nat, to: nat, a: nat, b: nat)
    requires WellFormed(rx) && FirstBanner(rx, s, a, b)
    requires from <= a && b <= to <= |s|
    ensures TryExtract(rx, s[from..to]) == Some(rx.id(s[a..b]))
  {
    WindowSearch(rx, s, from, to);
    var span := rx.find(s[from..to]).value;
    assert MatchAt(rx, s, from + span.start, from + span.end);
    SliceOfSlice(s, from, to, span.start, span.end);
  }

  /** Trimming an unmatched window never passes the start of a banner that fits in the tail plus one byte. */
  lemma {:induction false} TrimKeepsStart(rx: Banner, s: seq<byte>, from: nat, to: nat, a: nat, b: nat)
    requires WellFormed(rx) && MatchAt(rx, s, a, b) && b - a <= TAIL_CAP + 1
    requires from <= a && from <= to < b && to <= |s|
    ensures from + Cut(s[from..to]) <= a
  {
    var window := s[from..to];
    if a < to && |window| > TAIL_CAP {
      assert s[a..b][0] == s[a] == window[a - from];
    }
  }

  /** The carry-over of an unmatched run: a suffix of the stream so far that still holds `a`. */
  ghost predicate Holding(st: State, s: seq<byte>, total: nat, a: nat) {
    total <= |s| && !st.captured && exists from: nat :: from <= a && from <= total && st.pending == s[from..total]
  }

  /** The stream's first banner is [a, b), short enough for the tail. */
  ghost predicate ShortFirstBanner(rx: Banner, s: seq<byte>, a: nat, b: nat) {
    WellFormed(rx) && FirstBanner(rx, s, a, b) && b - a <= TAIL_CAP + 1
  }

  lemma {:induction false} StepBefore(rx: Banner, st: State, s: seq<byte>, total: nat, next: nat, a: nat, b: nat)
    requires ShortFirstBanner(rx, s, a, b)
    requires Holding(st, s, total, a) && total <= next < b
    ensures Holding(Step(rx, st, s[total..next]).0, s, next, a)
    ensures Step(rx, st, s[total..next]).1.id == None
  {
    var from: nat :| from <= a && from <= total && st.pending == s[from..total];
    NothingYet(rx, s, from, next, a, b);
    TrimKeepsStart(rx, s, from, next, a, b);
    StepUnmatched(rx, st, s, from, total, next);
  }

  lemma {:induction false} StepDelivering(rx: Banner, st: State, s: seq<byte>, total: nat, next: nat, a: nat, b: nat)
    requires ShortFirstBanner(rx, s, a, b)
    requires Holding(st, s, total, a) && total < b <= next <= |s|
    ensures Step(rx, st, s[total..next]).0.captured
    ensures Step(rx, st, s[total..next]).1.id == Some(rx.id(s[a..b]))
  {
    var from: nat :| from <= a && from <= total && st.pending == s[from..total];
    JoinSlices(s, from, total, next);
    FoundInWindow(rx, s, from, next, a, b);
  }

  lemma {:induction false} HoldingUntilDelivery(rx: Banner, chunks: seq<seq<byte>>, i: nat, a: nat, b: nat)
    requires ShortFirstBanner(rx, Flatten(chunks), a, b) && i <= |chunks| && |Joined(chunks, i)| < b
    ensures Holding(After(rx, INITIAL, chunks, i), Flatten(chunks), |Joined(chunks, i)|, a)
  {
    var s := Flatten(chunks);
    if i == 0 {
      assert INITIAL.pending == s[0..0];
    } else {
      PartSpan(chunks, i - 1);
      HoldingUntilDelivery(rx, chunks, i - 1, a, b);
      var st := After(rx, INITIAL, chunks, i - 1);
      StepBefore(rx, st, s, |Joined(chunks, i - 1)|, |Joined(chunks, i)|, a, b);
    }
  }

  lemma {:induction false} CapturedAfterDelivery(rx: Banner, chunks: seq<seq<byte>>, i: nat, a: nat, b: nat)
    requires ShortFirstBanner(rx, Flatten(chunks), a, b) && i <= |chunks| && |Joined(chunks, i)| >= b
    ensures After(rx, INITIAL, chunks, i).captured
  {
    assert |Flatten(chunks)[a..b]| > 0;
    PartSpan(chunks, i - 1);
    var st := After(rx, INITIAL, chunks, i - 1);
    if |Joined(chunks, i - 1)| >= b {
      CapturedAfterDelivery(rx, chunks, i - 1, a, b);
    } else {
      HoldingUntilDelivery(rx, chunks, i - 1, a, b);
      StepDelivering(rx, st, Flatten(chunks), |Joined(chunks, i - 1)|, |Joined(chunks, i)|, a, b);
    }
  }

  /** Chunk `i` is the one that delivers byte `b - 1` of the stream. */
  ghost predicate Delivers(chunks: seq<seq<byte>>, i: nat, b: nat)
    requires i < |chunks|
  {
    |Joined(chunks, i)| < b <= |Joined(chunks, i + 1)|
  }

  /** One chunk, from the state an undisturbed run is in. */
  lemma {:induction false} DetectionStep(rx: Banner, st: State, s: seq<byte>, n: nat, m: nat, a: nat, b: nat)
    requires ShortFirstBanner(rx, s, a, b) && n <= m <= |s|
    requires if n < b then Holding(st, s, n, a) else st.captured
    ensures Step(rx, st, s[n..m]).1.id == if n < b <= m then Some(rx.id(s[a..b])) else None
  {
    if n < b {
      if m < b {
        StepBefore(rx, st, s, n, m, a, b);
      } else {
        StepDelivering(rx, st, s, n, m, a, b);
      }
    }
  }

  lemma {:induction false} DetectionAt(rx: Banner, chunks: seq<seq<byte>>, i: nat, a: nat, b: nat)
    requires ShortFirstBanner(rx, Flatten(chunks), a, b) && i < |chunks|
    ensures Out(rx, INITIAL, chunks, i).id
         == if Delivers(chunks, i, b) then Some(rx.id(Flatten(chunks)[a..b])) else None
  {
    PartSpan(chunks, i);
    var n := |Joined(chunks, i)|;
    if n < b {
      HoldingUntilDelivery(rx, chunks, i, a, b);
    } else {
      CapturedAfterDelivery(rx, chunks, i, a, b);
    }
    DetectionStep(rx, After(rx, INITIAL, chunks, i), Flatten(chunks), n, |Joined(chunks, i + 1)|, a, b);
  }

  /** For every split into chunks, the first banner's id is returned by the chunk that delivers its
      last byte, and by no other chunk. */
  lemma {:induction false} DetectionIgnoresChunking(rx: Banner, chunks: seq<seq<byte>>, a: nat, b: nat)
    requires ShortFirstBanner(rx, Flatten(chunks), a, b)
    ensures forall i :: 0 <= i < |chunks| ==>
      Out(rx, INITIAL, chunks, i).id ==
        if Delivers(chunks, i, b) then Some(rx.id(Flatten(chunks)[a..b])) else None
  {
    forall i | 0 <= i < |chunks|
      ensures Out(rx, INITIAL, chunks, i).id
           == if Delivers(chunks, i, b) then Some(rx.id(Flatten(chunks)[a..b])) else None
    {
      DetectionAt(rx, chunks, i, a, b);
    }
  }

  /** A stream without a banner never latches and never yields an id. */
  lemma {:induction false} NoBannerNoCapture(rx: Banner, chunks: seq<seq<byte>>, i: nat)
    requires WellFormed(rx) && rx.find(Flatten(chunks)) == None && i < |chunks|
    ensures !After(rx, INITIAL, chunks, i + 1).captured
    ensures Out(rx, INITIAL, chunks, i).id == None
  {
    var _ := UncapturedTail(rx, chunks, i + 1);
    var _ := UncapturedTail(rx, chunks, i);
  }

  /** The state holds the end, from `from`, of the first `total` bytes of the stream. */
  ghost predicate HoldsFrom(st: State, s: seq<byte>, from: nat, total: nat) {
    from <= total <= |s| && st == State(s[from..total], false)
  }

  /** Without a banner, the carry-over is the end of what was fed. */
  lemma {:induction false} UncapturedTail(rx: Banner, chunks: seq<seq<byte>>, n: nat) returns (from: nat)
    requires WellFormed(rx) && rx.find(Flatten(chunks)) == None && n <= |chunks|
    ensures HoldsFrom(After(rx, INITIAL, chunks, n), Flatten(chunks), from, |Joined(chunks, n)|)
  {
    if n == 0 {
      return 0;
    }
    var before := UncapturedTail(rx, chunks, n - 1);
    StepOfStream(rx, chunks, n);
    from := UnmatchedPart(rx, After(rx, INITIAL, chunks, n - 1), Flatten(chunks), before,
      |Joined(chunks, n - 1)|, |Joined(chunks, n)|);
  }

  lemma {:induction false} StepOfStream(rx: Banner, chunks: seq<seq<byte>>, n: nat)
    requires 0 < n <= |chunks|
    ensures var s, total, next := Flatten(chunks), |Joined(chunks, n - 1)|, |Joined(chunks, n)|;
            total <= next <= |s|
              && After(rx, INITIAL, chunks, n) == Step(rx, After(rx, INITIAL, chunks, n - 1), s[total..next]).0
  {
    PartSpan(chunks, n - 1);
  }

  lemma {:induction false} UnmatchedPart(rx: Banner, st: State, s: seq<byte>, from: nat, total: nat, next: nat)
    returns (at: nat)
    requires WellFormed(rx) && rx.find(s) == None && total <= next <= |s| && HoldsFrom(st, s, from, total)
    ensures HoldsFrom(Step(rx, st, s[total..next]).0, s, at, next)
  {
    NothingInside(rx, s, from, next);
    StepUnmatched(rx, st, s, from, total, next);
    at := from + Cut(s[from..next]);
  }

  lemma {:induction false} NothingInside(rx: Banner, s: seq<byte>, from: nat, to: nat)
    requires WellFormed(rx) && from <= to <= |s| && rx.find(s) == None
    ensures rx.find(s[from..to]) == None
  {
    WindowSearch(rx, s, from, to);
    assert IsLeftmost(rx, s, rx.find(s));
  }

  // ----- The bound is tight -----

  /** However the stream is split, the chunk that delivers the last byte of [a, b) returns its id. */
  ghost predicate EverySplitFinds(rx: Banner, s: seq<byte>, a: nat, b: nat)
    requires a <= b <= |s|
  {
    forall chunks: seq<seq<byte>>, i: nat :: i < |chunks| && Flatten(chunks) == s && Delivers(chunks, i, b) ==>
      Out(rx, INITIAL, chunks, i).id == Some(rx.id(s[a..b]))
  }

  lemma {:induction false} FlattenOne<T>(part: seq<T>)
    ensures Flatten([part]) == part
  {
    assert Joined([part], 1) == Joined([part], 0) + part;
  }

  lemma {:induction false} FlattenTwo<T>(first: seq<T>, second: seq<T>)
    ensures Flatten([first, second]) == first + second
  {
    assert Joined([first, second], 1) == Joined([first, second], 0) + first == first;
  }

  lemma {:induction false} FlattenThree<T>(first: seq<T>, second: seq<T>, third: seq<T>)
    ensures var parts := [first, second, third];
            Joined(parts, 1) == first && Joined(parts, 2) == first + second && Flatten(parts) == first + second + third
  {
    var parts := [first, second, third];
    assert Joined(parts, 1) == Joined(parts, 0) + parts[0] == first;
    assert Joined(parts, 2) == Joined(parts, 1) + parts[1];
  }

  /** Delivered as everything up to the banner's last byte, then that byte, then the rest, a longer banner
      is not found by the chunk that completes it. */
  lemma {:induction false} LongBannerIsLost(rx: Banner, s: seq<byte>, a: nat, b: nat)
    requires WellFormed(rx) && LeadingBanner(rx, s, a, b) && b - a > TAIL_CAP + 1
    ensures var chunks := [s[0..b - 1], s[b - 1..b], s[b..|s|]];
            Flatten(chunks) == s && Delivers(chunks, 1, b) && Out(rx, INITIAL, chunks, 1).id == None
  {
    SplitThree(s, b);
    HeldBeforeEnd(rx, s, a, b);
    LostAfterCut(rx, s, a, b, Cut(s[0..b - 1]));
    SecondOut(rx, [s[0..b - 1], s[b - 1..b], s[b..|s|]]);
  }

  lemma {:induction false} SplitThree(s: seq<byte>, b: nat)
    requires 0 < b <= |s|
    ensures var chunks := [s[0..b - 1], s[b - 1..b], s[b..|s|]]; Flatten(chunks) == s && Delivers(chunks, 1, b)
  {
    FlattenThree(s[0..b - 1], s[b - 1..b], s[b..|s|]);
    JoinSlices(s, 0, b - 1, b);
    JoinSlices(s, 0, b, |s|);
    assert s[0..|s|] == s;
  }

  lemma {:induction false} SecondOut(rx: Banner, chunks: seq<seq<byte>>)
    requires |chunks| >= 2
    ensures Out(rx, INITIAL, chunks, 1) == Step(rx, Step(rx, INITIAL, chunks[0]).0, chunks[1]).1
  {
    assert After(rx, INITIAL, chunks, 1) == Step(rx, After(rx, INITIAL, chunks, 0), chunks[0]).0;
  }

  /** One byte short of its end, the banner is not seen, and its start is already released. */
  lemma {:induction false} HeldBeforeEnd(rx: Banner, s: seq<byte>, a: nat, b: nat)
    requires WellFormed(rx) && LeadingBanner(rx, s, a, b) && b - a > TAIL_CAP + 1
    ensures var cut := Cut(s[0..b - 1]);
            a < cut <= b - 1 && Step(rx, INITIAL, s[0..b - 1]).0 == State(s[cut..b - 1], false)
  {
    NothingUpTo(rx, s, 0, b - 1, a, b);
    StepUnmatched(rx, INITIAL, s, 0, 0, b - 1);
  }

  /** A banner whose start is released is not found by its last byte. */
  lemma {:induction false} LostAfterCut(rx: Banner, s: seq<byte>, a: nat, b: nat, cut: nat)
    requires WellFormed(rx) && LeadingBanner(rx, s, a, b) && a < cut <= b - 1 < |s|
    ensures Step(rx, State(s[cut..b - 1], false), s[b - 1..b]).1.id == None
  {
    NothingUpTo(rx, s, cut, b, a, b);
    StepUnmatched(rx, State(s[cut..b - 1], false), s, cut, b - 1, b);
  }

  /** A chunk that completes no banner only moves the cut. */
  lemma {:induction false} StepUnmatched(rx: Banner, st: State, s: seq<byte>, from: nat, total: nat, next: nat)
    requires from <= total <= next <= |s| && st == State(s[from..total], false)
    requires rx.find(s[from..next]) == None
    ensures var cut := Cut(s[from..next]);
            Step(rx, st, s[total..next]) == (State(s[from + cut..next], false), Output(s[from..from + cut], None))
  {
    JoinSlices(s, from, total, next);
    var window := s[from..next];
    var cut := Cut(window);
    SliceOfSlice(s, from, next, cut, |window|);
    SliceOfSlice(s, from, next, 0, cut);
    assert window[cut..] == window[cut..|window|] && window[..cut] == window[0..cut];
  }

  lemma {:induction false} AfterTwo(rx: Banner, st: State, first: seq<byte>, second: seq<byte>)
    ensures After(rx, st, [first, second], 2) == Step(rx, Step(rx, st, first).0, second).0
  {
    assert After(rx, st, [first, second], 1) == Step(rx, After(rx, st, [first, second], 0), first).0;
  }

  /** A window that ends by the first banner's end and does not hold all of it holds no banner. */
  lemma {:induction false} NothingUpTo(rx: Banner, s: seq<byte>, from: nat, to: nat, a: nat, b: nat)
    requires WellFormed(rx) && LeadingBanner(rx, s, a, b) && from <= to <= b && (a < from || to < b)
    ensures rx.find(s[from..to]) == None
  {
    WindowSearch(rx, s, from, to);
    forall c: nat, d: nat | MatchAt(rx, s, c, d) ensures c < d {
      assert |s[c..d]| > 0;
    }
  }

  /** The first banner is found under every split exactly when it is at most one byte longer than the
      held-back tail, whatever banners come after it. */
  lemma {:induction false} CaptureBoundIsExact(rx: Banner, s: seq<byte>, a: nat, b: nat)
    requires WellFormed(rx) && LeadingBanner(rx, s, a, b)
    ensures EverySplitFinds(rx, s, a, b) <==> b - a <= 65
  {
    LeadingIsFirst(rx, s, a, b);
    if b - a <= TAIL_CAP + 1 {
      assert ShortFirstBanner(rx, s, a, b);
      forall chunks: seq<seq<byte>>, i: nat | i < |chunks| && Flatten(chunks) == s && Delivers(chunks, i, b)
        ensures Out(rx, INITIAL, chunks, i).id == Some(rx.id(s[a..b]))
      {
        DetectionIgnoresChunking(rx, chunks, a, b);
      }
    } else {
      LongBannerIsLost(rx, s, a, b);
    }
  }
}
