/** The log-line scrubber: one pass of budgeted JSON probes splits a line into prose and JSON spans, and
    each span is replaced by its scrubbed image. */
module LogScrubber {
  import opened Bytes
  import opened QuoteLexer
  import opened LogScanner

  const MAX_EMBED_DEPTH := 8
  const JSON_PROBE_SLACK := 4096

  /** The bytes of an ASCII text. */
  function Ascii(text: string): Text
    requires forall k :: 0 <= k < |text| ==> text[k] < 128 as char
  {
    seq(|text|, k requires 0 <= k < |text| => text[k] as int)
  }

  const MASK: Text := Ascii("[REDACTED]")

  // ----- One pass of probes -----

  /** What the two scanners answer on one line: the next possible start at or after a position, and the end
      of the value that opens at a position. */
  datatype Scan = Scan(next: nat -> Option<nat>, end: nat -> Option<nat>)

  function ScanOf(env: Env, s: Text): Scan {
    Scan((i: nat) => if i <= |s| then NextStart(env, s, i, i, OUTSIDE) else None, (i: nat) => ValueEndOf(s, i))
  }

  /** `scan` holds the scanners' answers on `s`. */
  ghost predicate Reads(scan: Scan, env: Env, s: Text) {
    && (forall i: nat {:trigger NextStart(env, s, i, i, OUTSIDE)} :: i <= |s| ==>
          scan.next(i) == NextStart(env, s, i, i, OUTSIDE))
    && (forall i: nat {:trigger ValueEndOf(s, i)} :: scan.end(i) == ValueEndOf(s, i))
  }

  /** A start lies in the line at or after the position asked for, and a value ends after it starts. */
  ghost predicate InLine(scan: Scan, length: nat) {
    && (forall i: nat :: scan.next(i).Some? ==> i <= scan.next(i).value < length)
    && (forall i: nat :: scan.end(i).Some? ==> i < scan.end(i).value <= length)
  }

  lemma {:induction false} ScanOfReads(env: Env, s: Text)
    ensures Reads(ScanOf(env, s), env, s)
    ensures InLine(ScanOf(env, s), |s|)
  {
  }

  /** What one JSON candidate came to. */
  datatype Event =
    | Unbalanced(start: nat)
    | Rejected(start: nat, end: nat)
    | Accepted(start: nat, end: nat, value: Json)
    | OverBudget(start: nat, end: nat)

  /** One candidate at `start`, against the budget left. */
  function Probe(env: Env, s: Text, scan: Scan, start: nat, budget: nat): (e: Event)
    requires InLine(scan, |s|)
    ensures e.start == start
    ensures !e.Unbalanced? ==> start < e.end <= |s| && scan.end(start) == Some(e.end)
    ensures e.Rejected? || e.Accepted? ==> e.end - start <= budget
    ensures e.OverBudget? ==> e.end - start > budget
    ensures e.Accepted? ==> ParseContainer(env, s[start..e.end]) == Some(e.value)
    ensures e.Rejected? ==> ParseContainer(env, s[start..e.end]) == None
    ensures e.Unbalanced? <==> scan.end(start) == None
  {
    match scan.end(start)
    case None => Unbalanced(start)
    case Some(end) =>
      if end - start > budget then OverBudget(start, end)
      else
        match ParseContainer(env, s[start..end])
        case Some(v) => Accepted(start, end, v)
        case None => Rejected(start, end)
  }

  /** What a probe takes from the budget. */
  function Cost(e: Event): nat {
    if (e.Rejected? || e.Accepted?) && e.start <= e.end then e.end - e.start else 0
  }

  /** Every candidate of the pass from `search` on: a value that parses moves the cursor past itself, one
      that does not moves it one byte, and one the budget cannot pay for ends the pass. */
  function Pass(env: Env, s: Text, scan: Scan, search: nat, budget: nat): seq<Event>
    requires InLine(scan, |s|) && search <= |s|
    decreases |s| - search
  {
    match scan.next(search)
    case None => []
    case Some(start) =>
      var e := Probe(env, s, scan, start, budget);
      match e
      case Unbalanced(_) => [e] + Pass(env, s, scan, start + 1, budget)
      case Rejected(_, _) => [e] + Pass(env, s, scan, start + 1, budget - Cost(e))
      case Accepted(_, end, _) => [e] + Pass(env, s, scan, end, budget - Cost(e))
      case OverBudget(_, _) => [e]
  }

  /** Where the pass resumes looking after an event. */
  function Resume(e: Event): nat {
    if e.Accepted? then e.end else e.start + 1
  }

  /** A pass is its first probe, then the pass from where that leaves the cursor and the budget. */
  lemma {:induction false} PassUnfolds(env: Env, s: Text, scan: Scan, search: nat, budget: nat)
    requires InLine(scan, |s|) && search <= |s| && Pass(env, s, scan, search, budget) != []
    ensures var events := Pass(env, s, scan, search, budget);
            var e := events[0];
            && scan.next(search) == Some(e.start) && e == Probe(env, s, scan, e.start, budget)
            && (e.OverBudget? ==> events == [e])
            && (!e.OverBudget? ==>
                  && search < Resume(e) <= |s| && Cost(e) <= budget
                  && events == [e] + Pass(env, s, scan, Resume(e), budget - Cost(e))
                  && events[1..] == Pass(env, s, scan, Resume(e), budget - Cost(e)))
  {
  }

  // ----- Spans -----

  datatype Span =
    | Prose(text: Text)
    | Value(text: Text, value: Json, keyed: bool)

  /** The line from byte `i` on, cut at the accepted values. */
  function Spans(env: Env, s: Text, i: nat, events: seq<Event>): seq<Span>
    requires i <= |s|
    decreases events
  {
    if events == [] then (if i == |s| then [] else [Prose(s[i..])])
    else if events[0].Accepted? && i <= events[0].start <= events[0].end <= |s| then
      var e := events[0];
      [Prose(s[i..e.start]), Value(s[e.start..e.end], e.value, ProseEndsWithSecretKey(env, s, i, e.start))]
      + Spans(env, s, e.end, events[1..])
    else Spans(env, s, i, events[1..])
  }

  /** The spans of the line from `from` on, when the probes have reached `search`. */
  function RestOfLine(env: Env, s: Text, scan: Scan, from: nat, search: nat, budget: nat): seq<Span>
    requires InLine(scan, |s|) && from <= search <= |s|
  {
    Spans(env, s, from, Pass(env, s, scan, search, budget))
  }

  function LineSpans(env: Env, s: Text): seq<Span> {
    ScanOfReads(env, s);
    RestOfLine(env, s, ScanOf(env, s), 0, 0, |s| + JSON_PROBE_SLACK)
  }

  // ----- Images -----

  datatype Masked = Masked(value: Json, changed: bool)
  datatype MaskedItems = MaskedItems(items: seq<Json>, changed: bool)
  datatype MaskedEntries = MaskedEntries(entries: seq<Entry>, changed: bool)

  /** Every leaf replaced by the mask. */
  function MaskLeaves(v: Json): Masked
    decreases v
  {
    match v
    case Array(items) => var r := MaskItems(items, |items|); Masked(Array(r.items), r.changed)
    case Object(entries) => var r := MaskEntries(entries, |entries|); Masked(Object(r.entries), r.changed)
    case _ => if v == String(MASK) then Masked(v, false) else Masked(String(MASK), true)
  }

  /** The first `n` items masked, and whether any of them changed. */
  function MaskItems(items: seq<Json>, n: nat): (r: MaskedItems)
    requires n <= |items|
    ensures |r.items| == n
    decreases items, n
  {
    if n == 0 then MaskedItems([], false)
    else
      var before, last := MaskItems(items, n - 1), MaskLeaves(items[n - 1]);
      MaskedItems(before.items + [last.value], before.changed || last.changed)
  }

  function MaskEntries(entries: seq<Entry>, n: nat): (r: MaskedEntries)
    requires n <= |entries|
    ensures |r.entries| == n
    decreases entries, n
  {
    if n == 0 then MaskedEntries([], false)
    else
      var before, last := MaskEntries(entries, n - 1), MaskLeaves(entries[n - 1].value);
      MaskedEntries(before.entries + [Entry(entries[n - 1].key, last.value)], before.changed || last.changed)
  }

  /** The scrubbed line, `None` when no span changed. Every call is proved to be at a depth of at most
      `MAX_EMBED_DEPTH`, so the source's own guard against a deeper one is never taken. */
  function ScrubLine(env: Env, s: Text, depth: nat): Option<Text>
    requires depth <= MAX_EMBED_DEPTH
    decreases MAX_EMBED_DEPTH - depth, 4
  {
    var spans := LineSpans(env, s);
    Emit(spans, Images(env, spans, depth))
  }

  /** The image of every span. */
  function Images(env: Env, spans: seq<Span>, depth: nat): seq<Option<Text>>
    requires depth <= MAX_EMBED_DEPTH
    decreases MAX_EMBED_DEPTH - depth, 3
  {
    seq(|spans|, k requires 0 <= k < |spans| => Image(env, spans[k], depth))
  }

  /** All images spliced together when some span has one; `None` when every span is kept. */
  function Emit(spans: seq<Span>, images: seq<Option<Text>>): Option<Text>
    requires |images| == |spans|
  {
    if exists k :: 0 <= k < |images| && images[k].Some? then Some(Splice(spans, images, |spans|)) else None
  }

  /** The first `n` spans, each replaced by its image or kept as it is. */
  function Splice(spans: seq<Span>, images: seq<Option<Text>>, n: nat): Text
    requires n <= |spans| == |images|
  {
    if n == 0 then [] else Splice(spans, images, n - 1) + GetOr(images[n - 1], spans[n - 1].text)
  }

  /** What replaces one span, `None` when it is kept byte for byte. */
  function Image(env: Env, span: Span, depth: nat): Option<Text>
    requires depth <= MAX_EMBED_DEPTH
    decreases MAX_EMBED_DEPTH - depth, 2
  {
    match span
    case Prose(text) => env.scrubText(text)
    case Value(_, value, keyed) =>
      var r := if keyed then MaskLeaves(value) else ScrubJson(env, value, depth);
      if r.changed then Some(env.render(r.value)) else None
  }

  function ScrubJson(env: Env, v: Json, depth: nat): Masked
    requires depth <= MAX_EMBED_DEPTH
    decreases MAX_EMBED_DEPTH - depth, 1, v
  {
    match v
    case String(text) =>
      var cleaned := if depth >= MAX_EMBED_DEPTH then env.scrubText(text) else ScrubLine(env, text, depth + 1);
      if cleaned.Some? then Masked(String(cleaned.value), true) else Masked(v, false)
    case Array(items) => var r := ScrubItems(env, items, depth, |items|); Masked(Array(r.items), r.changed)
    case Object(entries) => var r := ScrubEntries(env, entries, depth, |entries|); Masked(Object(r.entries), r.changed)
    case _ => Masked(v, false)
  }

  function ScrubItems(env: Env, items: seq<Json>, depth: nat, n: nat): (r: MaskedItems)
    requires depth <= MAX_EMBED_DEPTH && n <= |items|
    ensures |r.items| == n
    decreases MAX_EMBED_DEPTH - depth, 1, items, n
  {
    if n == 0 then MaskedItems([], false)
    else
      var before, last := ScrubItems(env, items, depth, n - 1), ScrubJson(env, items[n - 1], depth);
      MaskedItems(before.items + [last.value], before.changed || last.changed)
  }

  /** The value under a secret-named key is masked whole, any other is scrubbed. */
  function ScrubEntry(env: Env, e: Entry, depth: nat): Masked
    requires depth <= MAX_EMBED_DEPTH
    decreases MAX_EMBED_DEPTH - depth, 1, e
  {
    if env.isSecretKey(e.key) then MaskLeaves(e.value) else ScrubJson(env, e.value, depth)
  }

  function ScrubEntries(env: Env, entries: seq<Entry>, depth: nat, n: nat): (r: MaskedEntries)
    requires depth <= MAX_EMBED_DEPTH && n <= |entries|
    ensures |r.entries| == n
    decreases MAX_EMBED_DEPTH - depth, 1, entries, n
  {
    if n == 0 then MaskedEntries([], false)
    else
      var before, last := ScrubEntries(env, entries, depth, n - 1), ScrubEntry(env, entries[n - 1], depth);
      MaskedEntries(before.entries + [Entry(entries[n - 1].key, last.value)], before.changed || last.changed)
  }

  function GetOr<T>(o: Option<T>, default: T): T {
    if o.Some? then o.value else default
  }

  /** The first `n` spans as they stand in the line. */
  function Original(spans: seq<Span>, n: nat): Text
    requires n <= |spans|
  {
    if n == 0 then [] else Original(spans, n - 1) + spans[n - 1].text
  }
}

/** The scrubber as it runs: nested loops, a buffer created by the first span that differs, and values
    masked member by member. */
module LogScrubberLoops {
  import opened Bytes
  import opened QuoteLexer
  import opened BracketIndexes
  import opened LogScanner
  import opened LogScrubber

  /** What the buffer must hold once the first `n` spans, covering `input[..at]`, are done. */
  ghost predicate BufferOk(spans: seq<Span>, images: seq<Option<Text>>, n: nat, input: Text, at: nat, out: Option<Text>)
    requires n <= |spans| == |images| && at <= |input|
  {
    && Splice(spans, images, n) == GetOr(out, input[..at])
    && (out.Some? <==> exists k :: 0 <= k < n && images[k].Some?)
  }

  /** Append `text`, creating the buffer from the untouched prefix `input[..at]` on first need. */
  function PushSpan(out: Option<Text>, input: Text, at: nat, text: Text): Option<Text>
    requires at <= |input|
  {
    Some(GetOr(out, input[..at]) + text)
  }

  /** Emit span `n`, which is `input[at..to]`. */
  method EmitSpan(ghost spans: seq<Span>, ghost images: seq<Option<Text>>, ghost n: nat,
                  input: Text, at: nat, to: nat, out: Option<Text>, image: Option<Text>)
    returns (next: Option<Text>)
    requires n < |spans| == |images| && at <= to <= |input|
    requires BufferOk(spans, images, n, input, at, out)
    requires spans[n].text == input[at..to] && image == images[n]
    ensures BufferOk(spans, images, n + 1, input, to, next)
  {
    next := out;
    if image.Some? {
      next := PushSpan(out, input, at, image.value);
      assert images[n].Some?;
    } else if out.Some? {
      next := Some(out.value + input[at..to]);
    } else {
      JoinSlices(input, 0, at, to);
      assert input[0..at] == input[..at] && input[0..to] == input[..to];
    }
  }

  function ValueSpans(env: Env, s: Text, from: nat, e: Event): seq<Span>
    requires e.Accepted? && from <= e.start <= e.end <= |s|
  {
    [Prose(s[from..e.start]), Value(s[e.start..e.end], e.value, ProseEndsWithSecretKey(env, s, from, e.start))]
  }

  /** The events from the first accepted value on. */
  function FromAccepted(events: seq<Event>): seq<Event> {
    if events == [] || events[0].Accepted? then events else FromAccepted(events[1..])
  }

  lemma {:induction false} SpansFromAccepted(env: Env, s: Text, from: nat, events: seq<Event>)
    requires from <= |s|
    ensures Spans(env, s, from, events) == Spans(env, s, from, FromAccepted(events))
    decreases events
  {
    if events != [] && !events[0].Accepted? {
      SpansFromAccepted(env, s, from, events[1..]);
    }
  }

  /** What the inner probe loop is looking for: the first value that parses, with the budget left then. */
  ghost predicate Finds(env: Env, s: Text, scan: Scan, from: nat, budget: nat, parsed: Option<Event>, left: nat)
    requires InLine(scan, |s|) && from <= |s|
  {
    var ahead := FromAccepted(Pass(env, s, scan, from, budget));
    match parsed
    case None => ahead == []
    case Some(e) => e.Accepted? && from <= e.start < e.end <= |s| && ahead == [e] + Pass(env, s, scan, e.end, left)
  }

  /** One probe, as the loop sees it. */
  lemma {:induction false} ProbeAhead(env: Env, s: Text, scan: Scan, search: nat, budget: nat)
    requires InLine(scan, |s|) && search <= |s|
    ensures scan.next(search) == None ==> Finds(env, s, scan, search, budget, None, budget)
    ensures scan.next(search).Some? ==>
      var e := Probe(env, s, scan, scan.next(search).value, budget);
      && (e.OverBudget? ==> Finds(env, s, scan, search, budget, None, budget))
      && (e.Accepted? ==> Finds(env, s, scan, search, budget, Some(e), budget - Cost(e)))
      && (e.Unbalanced? || e.Rejected? ==>
            FromAccepted(Pass(env, s, scan, search, budget))
              == FromAccepted(Pass(env, s, scan, e.start + 1, budget - Cost(e))))
  {
    var events := Pass(env, s, scan, search, budget);
    if events != [] {
      PassUnfolds(env, s, scan, search, budget);
      if events[0].OverBudget? {
        assert events[1..] == [];
      }
    }
  }

  /** The rest of the line is one prose span and one value span up to there, then the rest after it. */
  lemma {:induction false} RestSplits(env: Env, s: Text, scan: Scan, from: nat, budget: nat, parsed: Option<Event>,
                                      left: nat)
    requires InLine(scan, |s|) && from <= |s| && Finds(env, s, scan, from, budget, parsed, left)
    ensures RestOfLine(env, s, scan, from, from, budget) ==
              if parsed == None then Spans(env, s, from, [])
              else
                var e := parsed.value;
                ValueSpans(env, s, from, e) + RestOfLine(env, s, scan, e.end, e.end, left)
  {
    SpansFromAccepted(env, s, from, Pass(env, s, scan, from, budget));
    if parsed.Some? {
      SpansTake(env, s, from, parsed.value, Pass(env, s, scan, parsed.value.end, left));
    }
  }

  lemma {:induction false} SpansTake(env: Env, s: Text, from: nat, e: Event, rest: seq<Event>)
    requires e.Accepted? && from <= e.start <= e.end <= |s|
    ensures Spans(env, s, from, [e] + rest) == ValueSpans(env, s, from, e) + Spans(env, s, e.end, rest)
  {
    assert ([e] + rest)[1..] == rest;
  }

  method ProbeJsonValue(env: Env, input: Text, ghost scan: Scan, start: nat, brackets: BracketIndex, probeBudget: nat)
    returns (e: Event, left: nat)
    requires InLine(scan, |input|) && Reads(scan, env, input) && brackets.Indexes(input)
    ensures e == Probe(env, input, scan, start, probeBudget)
    ensures left == probeBudget - Cost(e)
  {
    left := probeBudget;
    var end := brackets.ValueEnd(start, input);
    if end == None {
      return Unbalanced(start), left;
    }
    if end.value - start > left {
      return OverBudget(start, end.value), left;
    }
    left := left - (end.value - start);
    var value := ParseContainer(env, input[start..end.value]);
    e := if value.Some? then Accepted(start, end.value, value.value) else Rejected(start, end.value);
  }

  method NextCandidate(env: Env, input: Text, ghost scan: Scan, search: nat) returns (r: Option<nat>)
    requires Reads(scan, env, input) && search <= |input|
    ensures r == scan.next(search)
  {
    ghost var tried;
    r, tried := NextJsonStart(env, input, search);
  }

  /** The next candidate of the pass and what it came to, when `ahead` is what the pass still accepts. */
  method ProbeNext(env: Env, input: Text, ghost scan: Scan, search: nat, brackets: BracketIndex, budget: nat,
                   ghost ahead: seq<Event>)
    returns (probed: Option<Event>, left: nat)
    requires InLine(scan, |input|) && Reads(scan, env, input) && brackets.Indexes(input) && search <= |input|
    requires ahead == FromAccepted(Pass(env, input, scan, search, budget))
    ensures probed == None || probed.value.OverBudget? ==> ahead == []
    ensures probed.Some? ==>
      var e := probed.value;
      && search <= e.start < |input|
      && (e.Accepted? ==> e.start < e.end <= |input| && ahead == [e] + Pass(env, input, scan, e.end, left))
      && (e.Unbalanced? || e.Rejected? ==> ahead == FromAccepted(Pass(env, input, scan, e.start + 1, left)))
  {
    ProbeAhead(env, input, scan, search, budget);
    var start := NextCandidate(env, input, scan, search);
    if start == None {
      return None, budget;
    }
    var e;
    e, left := ProbeJsonValue(env, input, scan, start.value, brackets, budget);
    probed := Some(e);
  }

  /** The inner probe loop. */
  method FindValue(env: Env, input: Text, ghost scan: Scan, from: nat, brackets: BracketIndex, budget: nat)
    returns (parsed: Option<Event>, left: nat)
    requires InLine(scan, |input|) && Reads(scan, env, input) && brackets.Indexes(input) && from <= |input|
    ensures Finds(env, input, scan, from, budget, parsed, left)
  {
    ghost var ahead := FromAccepted(Pass(env, input, scan, from, budget));
    var search := from;
    left := budget;
    while true
      invariant from <= search <= |input|
      invariant ahead == FromAccepted(Pass(env, input, scan, search, left))
      decreases |input| - search
    {
      parsed, left := ProbeNext(env, input, scan, search, brackets, left, ahead);
      if parsed == None || parsed.value.OverBudget? {
        return None, left;
      }
      if parsed.value.Accepted? {
        return;
      }
      search := parsed.value.start + 1;
    }
  }

  ghost predicate AreImages(env: Env, spans: seq<Span>, depth: nat, images: seq<Option<Text>>)
    requires depth <= MAX_EMBED_DEPTH
  {
    && |images| == |spans|
    && forall k {:trigger Image(env, spans[k], depth)} :: 0 <= k < |spans| ==> images[k] == Image(env, spans[k], depth)
  }

  method ScrubLogLineAt(env: Env, input: Text, depth: nat) returns (r: Option<Text>)
    requires depth <= MAX_EMBED_DEPTH
    ensures r == ScrubLine(env, input, depth)
    decreases MAX_EMBED_DEPTH - depth, 5
  {
    ScanOfReads(env, input);
    ghost var spans := LineSpans(env, input);
    r := ScrubSpans(env, input, ScanOf(env, input), spans, Images(env, spans, depth), depth);
  }

  /** What the probes find next, as the spans ahead. */
  method NextSpans(env: Env, input: Text, ghost scan: Scan, i: nat, brackets: BracketIndex, budget: nat,
                   ghost spans: seq<Span>, ghost n: nat)
    returns (parsed: Option<Event>, left: nat)
    requires InLine(scan, |input|) && Reads(scan, env, input) && brackets.Indexes(input)
    requires i < |input| && n <= |spans| && spans[n..] == RestOfLine(env, input, scan, i, i, budget)
    ensures parsed == None ==> spans[n..] == Spans(env, input, i, [])
    ensures parsed.Some? ==>
      var e := parsed.value;
      && e.Accepted? && i <= e.start < e.end <= |input| && n + 2 <= |spans|
      && spans[n] == ValueSpans(env, input, i, e)[0] && spans[n + 1] == ValueSpans(env, input, i, e)[1]
      && spans[n + 2..] == RestOfLine(env, input, scan, e.end, e.end, left)
  {
    parsed, left := FindValue(env, input, scan, i, brackets, budget);
    RestSplits(env, input, scan, i, budget, parsed, left);
    if parsed.Some? {
      NextTwo(spans, n, ValueSpans(env, input, i, parsed.value),
        RestOfLine(env, input, scan, parsed.value.end, parsed.value.end, left));
    }
  }

  /** The outer loop. */
  method ScrubSpans(env: Env, input: Text, ghost scan: Scan, ghost spans: seq<Span>,
                    ghost images: seq<Option<Text>>, depth: nat)
    returns (r: Option<Text>)
    requires InLine(scan, |input|) && Reads(scan, env, input) && depth <= MAX_EMBED_DEPTH
    requires spans == RestOfLine(env, input, scan, 0, 0, |input| + JSON_PROBE_SLACK)
    requires AreImages(env, spans, depth, images)
    ensures r == Emit(spans, images)
    decreases MAX_EMBED_DEPTH - depth, 4
  {
    var brackets := BracketIndexes.New(input);
    ghost var n := 0;
    var out: Option<Text> := None;
    var i := 0;
    var probeBudget: nat := |input| + JSON_PROBE_SLACK;
    while i < |input|
      invariant i <= |input| && n <= |spans|
      invariant spans[n..] == RestOfLine(env, input, scan, i, i, probeBudget)
      invariant BufferOk(spans, images, n, input, i, out)
      decreases |input| - i
    {
      var parsed: Option<Event>;
      parsed, probeBudget := NextSpans(env, input, scan, i, brackets, probeBudget, spans, n);
      if parsed == None {
        out := EmitTail(env, spans, images, depth, n, input, i, out);
        n, i := |spans|, |input|;
        break;
      }
      out := EmitValue(env, spans, images, depth, n, input, i, parsed.value, out);
      n, i := n + 2, parsed.value.end;
    }
    DoneMeansAll(env, spans, n, input, scan, i, probeBudget);
    BufferIsEmit(spans, images, input, out);
    r := out;
  }

  /** The rest of the line is one prose span. */
  method EmitTail(env: Env, ghost spans: seq<Span>, ghost images: seq<Option<Text>>, ghost depth: nat, ghost n: nat,
                  input: Text, i: nat, out: Option<Text>)
    returns (next: Option<Text>)
    requires n <= |spans| == |images| && i < |input|
    requires spans[n..] == Spans(env, input, i, [])
    requires depth <= MAX_EMBED_DEPTH && AreImages(env, spans, depth, images)
    requires BufferOk(spans, images, n, input, i, out)
    ensures BufferOk(spans, images, |spans|, input, |input|, next)
  {
    var replaced := env.scrubText(input[i..]);
    assert spans[n..][0] == Prose(input[i..|input|]);
    assert images[n] == Image(env, spans[n], depth);
    next := EmitSpan(spans, images, n, input, i, |input|, out, replaced);
  }

  lemma {:induction false} BufferIsEmit(spans: seq<Span>, images: seq<Option<Text>>, input: Text, out: Option<Text>)
    requires |spans| == |images| && BufferOk(spans, images, |spans|, input, |input|, out)
    ensures out == Emit(spans, images)
  {
  }

  lemma {:induction false} NextTwo(spans: seq<Span>, n: nat, two: seq<Span>, ahead: seq<Span>)
    requires n <= |spans| && |two| == 2 && spans[n..] == two + ahead
    ensures n + 2 <= |spans| && spans[n] == two[0] && spans[n + 1] == two[1] && spans[n + 2..] == ahead
  {
    assert spans[n] == spans[n..][0] && spans[n + 1] == spans[n..][1];
    assert spans[n + 2..] == spans[n..][2..];
  }

  /** Scrub one value span and the prose before it. */
  method EmitValue(env: Env, ghost spans: seq<Span>, ghost images: seq<Option<Text>>, depth: nat, ghost n: nat,
                   input: Text, i: nat, e: Event, out: Option<Text>)
    returns (next: Option<Text>)
    requires depth <= MAX_EMBED_DEPTH && n + 2 <= |spans| == |images|
    requires AreImages(env, spans, depth, images)
    requires e.Accepted? && i <= e.start <= e.end <= |input|
    requires spans[n] == ValueSpans(env, input, i, e)[0] && spans[n + 1] == ValueSpans(env, input, i, e)[1]
    requires BufferOk(spans, images, n, input, i, out)
    ensures BufferOk(spans, images, n + 2, input, e.end, next)
    decreases MAX_EMBED_DEPTH - depth, 3
  {
    assert images[n] == Image(env, spans[n], depth) && images[n + 1] == Image(env, spans[n + 1], depth);
    var prose := input[i..e.start];
    var masked: Masked;
    if ProseEndsWithSecretKey(env, input, i, e.start) {
      masked := MaskAllLeaves(e.value);
    } else {
      masked := ScrubJsonAt(env, e.value, depth);
    }
    var replaced := env.scrubText(prose);
    next := EmitSpan(spans, images, n, input, i, e.start, out, replaced);
    var image := if masked.changed then Some(env.render(masked.value)) else None;
    next := EmitSpan(spans, images, n + 1, input, e.start, e.end, next, image);
  }

  method ScrubJsonAt(env: Env, value: Json, depth: nat) returns (r: Masked)
    requires depth <= MAX_EMBED_DEPTH
    ensures r == ScrubJson(env, value, depth)
    decreases MAX_EMBED_DEPTH - depth, 1, value
  {
    match value
    case String(text) =>
      var cleaned;
      if depth >= MAX_EMBED_DEPTH {
        cleaned := env.scrubText(text);
      } else {
        cleaned := ScrubLogLineAt(env, text, depth + 1);
      }
      r := if cleaned.Some? then Masked(String(cleaned.value), true) else Masked(value, false);
    case Array(items) =>
      var done, changed := [], false;
      for k := 0 to |items|
        invariant MaskedItems(done, changed) == ScrubItems(env, items, depth, k)
      {
        var item := ScrubJsonAt(env, items[k], depth);
        done, changed := done + [item.value], changed || item.changed;
      }
      r := Masked(Array(done), changed);
    case Object(entries) =>
      var done, changed := [], false;
      for k := 0 to |entries|
        invariant MaskedEntries(done, changed) == ScrubEntries(env, entries, depth, k)
      {
        var item: Masked;
        if env.isSecretKey(entries[k].key) {
          item := MaskAllLeaves(entries[k].value);
        } else {
          item := ScrubJsonAt(env, entries[k].value, depth);
        }
        done, changed := done + [Entry(entries[k].key, item.value)], changed || item.changed;
      }
      r := Masked(Object(done), changed);
    case _ =>
      r := Masked(value, false);
  }

  method MaskAllLeaves(value: Json) returns (r: Masked)
    ensures r == MaskLeaves(value)
    decreases value
  {
    match value
    case Array(items) =>
      var done, changed := [], false;
      for k := 0 to |items|
        invariant MaskedItems(done, changed) == MaskItems(items, k)
      {
        var item := MaskAllLeaves(items[k]);
        done, changed := done + [item.value], changed || item.changed;
      }
      r := Masked(Array(done), changed);
    case Object(entries) =>
      var done, changed := [], false;
      for k := 0 to |entries|
        invariant MaskedEntries(done, changed) == MaskEntries(entries, k)
      {
        var item := MaskAllLeaves(entries[k].value);
        done, changed := done + [Entry(entries[k].key, item.value)], changed || item.changed;
      }
      r := Masked(Object(done), changed);
    case leaf =>
      r := if leaf == String(MASK) then Masked(leaf, false) else Masked(String(MASK), true);
  }

  /** A cursor at the end of the line leaves no span. */
  lemma {:induction false} DoneMeansAll(env: Env, spans: seq<Span>, n: nat, s: Text, scan: Scan, i: nat, budget: nat)
    requires InLine(scan, |s|) && n <= |spans| && i == |s|
    requires n == |spans| || spans[n..] == RestOfLine(env, s, scan, i, i, budget)
    ensures n == |spans|
  {
    assert Pass(env, s, scan, |s|, budget) == [];
  }
}
