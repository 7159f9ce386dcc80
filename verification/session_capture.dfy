/** PTY chunk carry-over: a banner matcher that holds back a short tail between reads. */
module SessionCapture {
  import opened Bytes
  import opened Utf8

  const TAIL_CAP := 64

  type Id = string

  /** A half-open byte range of a text. */
  datatype Span = Span(start: nat, end: nat)

  /** The labelled-session-id expression: which byte spans are a whole banner, the id each one carries,
      and the search for the first banner of a text. */
  datatype Banner = Banner(matches: seq<byte> -> bool, id: seq<byte> -> Id, find: seq<byte> -> Option<Span>)

  ghost predicate MatchAt(rx: Banner, data: seq<byte>, start: nat, end: nat) {
    start <= end <= |data| && rx.matches(data[start..end])
  }

  /** `find` is a leftmost search, and a banner is non-empty and starts at the start of a character. */
  ghost predicate WellFormed(rx: Banner) {
    && (forall span :: rx.matches(span) ==> |span| > 0 && !IsContinuation(span[0]))
    && (forall data {:trigger IsLeftmost(rx, data, rx.find(data))} :: IsLeftmost(rx, data, rx.find(data)))
  }

  ghost predicate IsLeftmost(rx: Banner, data: seq<byte>, found: Option<Span>) {
    match found
    case None => forall a: nat, b: nat :: !MatchAt(rx, data, a, b)
    case Some(span) =>
      && MatchAt(rx, data, span.start, span.end)
      && forall a: nat, b: nat :: MatchAt(rx, data, a, b) ==> span.start <= a
  }

  function TryExtract(rx: Banner, data: seq<byte>): Option<Id> {
    match rx.find(data)
    case None => None
    case Some(span) => if span.start <= span.end <= |data| then Some(rx.id(data[span.start..span.end])) else None
  }

  /** First boundary at or after `from`; the end of the buffer is one. */
  function FirstBoundary(s: seq<byte>, from: nat): (at: nat)
    requires from <= |s|
    ensures from <= at <= |s| && IsBoundary(s, at)
    ensures forall k :: from <= k < at ==> IsContinuation(s[k])
    decreases |s| - from
  {
    if from < |s| && IsContinuation(s[from]) then FirstBoundary(s, from + 1) else from
  }

  /** How much of an unmatched buffer is released. */
  function Cut(s: seq<byte>): (at: nat)
    ensures at <= |s| && |s| - at <= TAIL_CAP
    ensures |s| <= TAIL_CAP ==> at == 0
    ensures |s| > TAIL_CAP ==> IsBoundary(s, at) && forall k :: |s| - TAIL_CAP <= k < at ==> IsContinuation(s[k])
  {
    if |s| <= TAIL_CAP then 0 else FirstBoundary(s, |s| - TAIL_CAP)
  }

  datatype State = State(pending: seq<byte>, captured: bool)
  datatype Output = Output(released: seq<byte>, id: Option<Id>)

  const INITIAL := State([], false)

  /** What one chunk does to the carry-over, and what it hands downstream. */
  function Step(rx: Banner, st: State, chunk: seq<byte>): (State, Output) {
    if st.captured then (st, Output(chunk, None))
    else
      var buffer := st.pending + chunk;
      match TryExtract(rx, buffer)
      case Some(id) => (State([], true), Output(buffer, Some(id)))
      case None => (State(buffer[Cut(buffer)..], false), Output(buffer[..Cut(buffer)], None))
  }

  class ChunkCapture {
    const rx: Banner
    var pending: seq<byte>
    var captured: bool

    constructor (rx: Banner)
      ensures this.rx == rx && Abs() == INITIAL
    {
      this.rx := rx;
      pending, captured := [], false;
    }

    function Abs(): State
      reads this
    {
      State(pending, captured)
    }

    method MarkCaptured()
      modifies this
      ensures Abs() == State(old(pending), true)
    {
      captured := true;
    }

    method Feed(chunk: seq<byte>) returns (out: Output)
      modifies this
      ensures (Abs(), out) == Step(rx, old(Abs()), chunk)
    {
      if captured {
        return Output(chunk, None);
      }
      pending := pending + chunk;
      var id := TryExtract(rx, pending);
      if id.Some? {
        captured := true;
        var text := pending;
        pending := [];
        return Output(text, id);
      }
      if |pending| <= TAIL_CAP {
        return Output([], None);
      }
      var trimTo := |pending| - TAIL_CAP;
      while trimTo < |pending| && IsContinuation(pending[trimTo])
        invariant trimTo <= |pending|
        invariant FirstBoundary(pending, trimTo) == Cut(pending)
      {
        trimTo := trimTo + 1;
      }
      var released := pending[..trimTo];
      pending := pending[trimTo..];
      return Output(released, None);
    }
  }

  // ----- Runs -----

  /** The state after the first `n` chunks, starting from `st`. */
  function After(rx: Banner, st: State, chunks: seq<seq<byte>>, n: nat): State
    requires n <= |chunks|
  {
    if n == 0 then st else Step(rx, After(rx, st, chunks, n - 1), chunks[n - 1]).0
  }

  /** What chunk `i` hands downstream. */
  function Out(rx: Banner, st: State, chunks: seq<seq<byte>>, i: nat): Output
    requires i < |chunks|
  {
    Step(rx, After(rx, st, chunks, i), chunks[i]).1
  }

  /** Everything released by the first `n` chunks. */
  function Released(rx: Banner, st: State, chunks: seq<seq<byte>>, n: nat): seq<byte>
    requires n <= |chunks|
  {
    if n == 0 then [] else Released(rx, st, chunks, n - 1) + Out(rx, st, chunks, n - 1).released
  }

  /** One chunk: what is released, then what is still held, is what was held plus the chunk. */
  lemma {:induction false} StepConserves(rx: Banner, st: State, chunk: seq<byte>)
    requires st.captured ==> st.pending == []
    ensures var (next, out) := Step(rx, st, chunk);
            && out.released + next.pending == st.pending + chunk
            && (|st.pending| <= TAIL_CAP ==> |next.pending| <= TAIL_CAP)
            && (next.captured ==> next.pending == [])
  {
    var buffer := st.pending + chunk;
    assert buffer == buffer[..Cut(buffer)] + buffer[Cut(buffer)..];
  }

  /** Byte conservation, for any bytes and any chunking: nothing is lost, duplicated or reordered. The
      last conjunct makes the latching chunk release exactly the remainder. */
  lemma {:induction false} Conservation(rx: Banner, chunks: seq<seq<byte>>, n: nat)
    requires n <= |chunks|
    ensures var st := After(rx, INITIAL, chunks, n);
            && Released(rx, INITIAL, chunks, n) + st.pending == Joined(chunks, n)
            && |st.pending| <= 64
            && (st.captured ==> st.pending == [])
  {
    if n > 0 {
      Conservation(rx, chunks, n - 1);
      var st := After(rx, INITIAL, chunks, n - 1);
      StepConserves(rx, st, chunks[n - 1]);
      var (next, out) := Step(rx, st, chunks[n - 1]);
      Regroup(Released(rx, INITIAL, chunks, n - 1), out.released, next.pending, st.pending, chunks[n - 1]);
    }
  }

  lemma {:induction false} Regroup<T>(earlier: seq<T>, released: seq<T>, kept: seq<T>, held: seq<T>, chunk: seq<T>)
    requires released + kept == held + chunk
    ensures (earlier + released) + kept == (earlier + held) + chunk
  {
    assert (earlier + released) + kept == earlier + (released + kept);
    assert (earlier + held) + chunk == earlier + (held + chunk);
  }

  /** Once the latch is set (by a capture or by `MarkCaptured`), every chunk passes through, no id is
      returned and nothing changes. */
  lemma {:induction false} LatchIsSticky(rx: Banner, st: State, chunks: seq<seq<byte>>, i: nat)
    requires i < |chunks| && st.captured
    ensures After(rx, st, chunks, i) == st
    ensures Out(rx, st, chunks, i) == Output(chunks[i], None)
  {
    LatchedState(rx, st, chunks, i);
  }

  lemma {:induction false} LatchedState(rx: Banner, st: State, chunks: seq<seq<byte>>, n: nat)
    requires n <= |chunks| && st.captured
    ensures After(rx, st, chunks, n) == st
  {
    if n > 0 {
      LatchedState(rx, st, chunks, n - 1);
    }
  }

  /** An id is returned by at most one chunk of a run: the one that sets the latch. */
  lemma {:induction false} IdAtMostOnce(rx: Banner, st: State, chunks: seq<seq<byte>>, i: nat, j: nat)
    requires i < j < |chunks| && Out(rx, st, chunks, i).id.Some?
    ensures Out(rx, st, chunks, j).id == None
    ensures After(rx, st, chunks, j) == State([], true)
  {
    if j > i + 1 {
      IdAtMostOnce(rx, st, chunks, i, j - 1);
    }
  }
}
