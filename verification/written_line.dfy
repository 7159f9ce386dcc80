/** The scrubbed line described piece by piece: which pieces of the input are JSON values, and what becomes of
    each value and of the prose between them. */
module WrittenLine {
  import opened Bytes
  import opened LogScanner
  import opened LogScrubber
  import opened LogScrubberTheorems
  import opened PassTheorems
  import opened QuoteLexer

  /** A value of the line and where it stands. */
  datatype Found = Found(start: nat, end: nat, value: Json)

  /** The values that parsed, in order. */
  function FoundIn(events: seq<Event>): seq<Found> {
    if events == [] then []
    else
      var e := events[0];
      (if e.Accepted? then [Found(e.start, e.end, e.value)] else []) + FoundIn(events[1..])
  }

  /** The line's values: those the pass accepted. */
  function LineValues(env: Env, s: Text): seq<Found> {
    FoundIn(LinePass(env, s))
  }

  // ----- What is written -----

  /** Prose is written as the text pipeline leaves it. */
  function ProseText(env: Env, prose: Text): Text {
    match env.scrubText(prose)
    case Some(scrubbed) => scrubbed
    case None => prose
  }

  predicate StandsIn(env: Env, s: Text, from: nat, f: Found) {
    && from <= f.start < f.end <= |s|
    && env.parse(s[f.start..f.end]) == Some(f.value) && (f.value.Array? || f.value.Object?)
  }

  /** A value is kept when there is nothing to mask in it: in a value owned by a secret-named key, no leaf. */
  predicate ValueKept(env: Env, s: Text, from: nat, f: Found, depth: nat)
    requires from <= f.start <= |s| && depth <= MAX_EMBED_DEPTH
  {
    if ProseEndsWithSecretKey(env, s, from, f.start) then AllMasked(f.value) else !Touched(env, f.value, depth)
  }

  /** What a value is written as: its own bytes when kept, else printed, wholly masked when the prose before
      it ends with a secret-named key and sanitized otherwise. */
  ghost predicate IsValueText(env: Env, s: Text, from: nat, f: Found, depth: nat, text: Text)
    requires StandsIn(env, s, from, f) && depth <= MAX_EMBED_DEPTH
  {
    if ValueKept(env, s, from, f, depth) then text == s[f.start..f.end]
    else
      exists w :: text == env.render(w) &&
        if ProseEndsWithSecretKey(env, s, from, f.start) then SameShape(f.value, w) && AllMasked(w)
        else Sanitized(env, f.value, w, depth)
  }

  /** `line` is what the input from `from` on is written as, with the values `found`. */
  ghost predicate IsWritten(env: Env, s: Text, from: nat, found: seq<Found>, depth: nat, line: Text)
    requires from <= |s| && depth <= MAX_EMBED_DEPTH
    decreases found
  {
    if found == [] then line == if from == |s| then [] else ProseText(env, s[from..])
    else
      var f := found[0];
      && StandsIn(env, s, from, f)
      && exists value, rest ::
           && IsValueText(env, s, from, f, depth, value) && IsWritten(env, s, f.end, found[1..], depth, rest)
           && line == ProseText(env, s[from..f.start]) + value + rest
  }

  /** Nothing of the input from `from` on is replaced. */
  ghost predicate AllKept(env: Env, s: Text, from: nat, found: seq<Found>, depth: nat)
    requires from <= |s| && depth <= MAX_EMBED_DEPTH
    decreases found
  {
    if found == [] then from == |s| || env.scrubText(s[from..]) == None
    else
      var f := found[0];
      && StandsIn(env, s, from, f) && env.scrubText(s[from..f.start]) == None
      && ValueKept(env, s, from, f, depth) && AllKept(env, s, f.end, found[1..], depth)
  }

  // ----- The spans and their images are that -----

  lemma {:induction false} ValueImageIs(env: Env, s: Text, from: nat, f: Found, depth: nat)
    requires StandsIn(env, s, from, f) && depth <= MAX_EMBED_DEPTH
    ensures var text := s[f.start..f.end];
            var image := Image(env, Value(text, f.value, ProseEndsWithSecretKey(env, s, from, f.start)), depth);
            && (image == None <==> ValueKept(env, s, from, f, depth))
            && IsValueText(env, s, from, f, depth, GetOr(image, text))
  {
    MaskChanges(f.value);
    MaskLeavesIsExact(f.value);
    ScrubJsonSanitizes(env, f.value, depth);
  }

  lemma {:induction false} SpliceSplits(spans: seq<Span>, images: seq<Option<Text>>, d: nat, n: nat)
    requires d + n <= |spans| == |images|
    ensures Splice(spans, images, d + n) == Splice(spans, images, d) + Splice(spans[d..], images[d..], n)
  {
    if n > 0 {
      SpliceSplits(spans, images, d, n - 1);
      assert spans[d + n - 1] == spans[d..][n - 1] && images[d + n - 1] == images[d..][n - 1];
    }
  }

  lemma {:induction false} SplicePair(spans: seq<Span>, images: seq<Option<Text>>)
    requires |spans| == |images| && |spans| >= 2
    ensures Splice(spans, images, 2) == GetOr(images[0], spans[0].text) + GetOr(images[1], spans[1].text)
  {
    assert Splice(spans, images, 1) == Splice(spans, images, 0) + GetOr(images[0], spans[0].text);
  }

  /** The values of a pass stand in the line one after another. */
  predicate Placed(env: Env, s: Text, from: nat, events: seq<Event>)
    decreases events
  {
    from <= |s| &&
    (events == [] ||
     (var e := events[0];
      if e.Accepted? then StandsIn(env, s, from, Found(e.start, e.end, e.value)) && Placed(env, s, e.end, events[1..])
      else Placed(env, s, from, events[1..])))
  }

  lemma {:induction false} FollowsPlaced(env: Env, s: Text, scan: Scan, from: nat, search: nat, left: int,
                                         events: seq<Event>)
    requires from <= search && Follows(env, s, scan, search, left, events)
    ensures Placed(env, s, from, events)
    decreases events
  {
    if events != [] {
      var e := events[0];
      if e.Accepted? {
        FollowsPlaced(env, s, scan, e.end, e.end, LeftAfter(e, left), events[1..]);
      } else if e.OverBudget? {
        assert events[1..] == [];
      } else {
        FollowsPlaced(env, s, scan, from, e.start + 1, LeftAfter(e, left), events[1..]);
      }
    }
  }

  lemma {:induction false} SpansAreWritten(env: Env, s: Text, from: nat, events: seq<Event>, depth: nat)
    requires depth <= MAX_EMBED_DEPTH && Placed(env, s, from, events)
    ensures var spans := Spans(env, s, from, events);
            var images := Images(env, spans, depth);
            && IsWritten(env, s, from, FoundIn(events), depth, Splice(spans, images, |spans|))
            && (NoImage(images) <==> AllKept(env, s, from, FoundIn(events), depth))
    decreases events
  {
    if events == [] {
      TailIsWritten(env, s, from, depth);
    } else {
      var e := events[0];
      if e.Accepted? {
        SpansAreWritten(env, s, e.end, events[1..], depth);
        ValueIsWritten(env, s, from, e, events[1..], depth);
      } else {
        SpansAreWritten(env, s, from, events[1..], depth);
        assert FoundIn(events) == FoundIn(events[1..]);
      }
    }
  }

  predicate NoImage(images: seq<Option<Text>>) {
    forall k :: 0 <= k < |images| ==> images[k] == None
  }

  lemma {:induction false} TailIsWritten(env: Env, s: Text, from: nat, depth: nat)
    requires depth <= MAX_EMBED_DEPTH && from <= |s|
    ensures var spans := Spans(env, s, from, []);
            var images := Images(env, spans, depth);
            && IsWritten(env, s, from, [], depth, Splice(spans, images, |spans|))
            && (NoImage(images) <==> AllKept(env, s, from, [], depth))
  {
    var spans := Spans(env, s, from, []);
    var images := Images(env, spans, depth);
    if from < |s| {
      assert spans == [Prose(s[from..])];
      ImagesAt(env, spans, depth, 0);
      assert Splice(spans, images, 1) == Splice(spans, images, 0) + GetOr(images[0], spans[0].text);
    }
  }

  lemma {:induction false} ImagesAt(env: Env, spans: seq<Span>, depth: nat, k: nat)
    requires depth <= MAX_EMBED_DEPTH && k < |spans|
    ensures Images(env, spans, depth)[k] == Image(env, spans[k], depth)
    ensures spans[k].Prose? ==> Images(env, spans, depth)[k] == env.scrubText(spans[k].text)
  {
  }

  lemma {:induction false} ImagesAfter(env: Env, spans: seq<Span>, depth: nat, k: nat)
    requires depth <= MAX_EMBED_DEPTH && k <= |spans|
    ensures Images(env, spans, depth)[k..] == Images(env, spans[k..], depth)
  {
  }

  /** The splice of two spans and the spans after them. */
  lemma {:induction false} SpliceFromTwo(spans: seq<Span>, images: seq<Option<Text>>, n: nat, head: Text, tail: Text)
    requires |spans| == |images| == n + 2
    requires Splice(spans, images, 2) == head && Splice(spans[2..], images[2..], n) == tail
    ensures Splice(spans, images, 2 + n) == head + tail
  {
    SpliceSplits(spans, images, 2, n);
  }

  lemma {:induction false} ThreeSplices(env: Env, spans: seq<Span>, depth: nat)
    requires depth <= MAX_EMBED_DEPTH && |spans| >= 2 && spans[0].Prose?
    ensures var images, later := Images(env, spans, depth), Images(env, spans[2..], depth);
            && Splice(spans, images, |spans|)
                 == ProseText(env, spans[0].text) + GetOr(Image(env, spans[1], depth), spans[1].text)
                    + Splice(spans[2..], later, |spans| - 2)
            && (NoImage(images) <==>
                  env.scrubText(spans[0].text) == None && Image(env, spans[1], depth) == None && NoImage(later))
  {
    ImagesAfter(env, spans, depth, 2);
    ImagesAt(env, spans, depth, 0);
    ImagesAt(env, spans, depth, 1);
    var images, later := Images(env, spans, depth), Images(env, spans[2..], depth);
    var head := ProseText(env, spans[0].text) + GetOr(Image(env, spans[1], depth), spans[1].text);
    SplicePair(spans, images);
    SpliceFromTwo(spans, images, |spans| - 2, head, Splice(spans[2..], later, |spans| - 2));
    FirstTwo(images);
  }

  lemma {:induction false} ValueIsWritten(env: Env, s: Text, from: nat, e: Event, rest: seq<Event>, depth: nat)
    requires depth <= MAX_EMBED_DEPTH && e.Accepted? && StandsIn(env, s, from, Found(e.start, e.end, e.value))
    requires var spans := Spans(env, s, e.end, rest);
             var images := Images(env, spans, depth);
             && IsWritten(env, s, e.end, FoundIn(rest), depth, Splice(spans, images, |spans|))
             && (NoImage(images) <==> AllKept(env, s, e.end, FoundIn(rest), depth))
    ensures var spans := Spans(env, s, from, [e] + rest);
            var images := Images(env, spans, depth);
            && IsWritten(env, s, from, FoundIn([e] + rest), depth, Splice(spans, images, |spans|))
            && (NoImage(images) <==> AllKept(env, s, from, FoundIn([e] + rest), depth))
  {
    var f, later := Found(e.start, e.end, e.value), Spans(env, s, e.end, rest);
    var spans := Spans(env, s, from, [e] + rest);
    SpansOfValue(env, s, from, e, rest);
    ThreeSplices(env, spans, depth);
    ValueImageIs(env, s, from, f, depth);
    FoundNext(e, rest);
    PiecesAreWritten(env, s, from, f, FoundIn(rest), depth, GetOr(Image(env, spans[1], depth), spans[1].text),
      Splice(later, Images(env, later, depth), |later|));
  }

  lemma {:induction false} SpansOfValue(env: Env, s: Text, from: nat, e: Event, rest: seq<Event>)
    requires e.Accepted? && from <= e.start <= e.end <= |s|
    ensures var spans := Spans(env, s, from, [e] + rest);
            && |spans| >= 2 && spans[0] == Prose(s[from..e.start]) && spans[2..] == Spans(env, s, e.end, rest)
            && spans[1] == Value(s[e.start..e.end], e.value, ProseEndsWithSecretKey(env, s, from, e.start))
  {
    assert ([e] + rest)[1..] == rest;
  }

  lemma {:induction false} FoundNext(e: Event, rest: seq<Event>)
    requires e.Accepted?
    ensures FoundIn([e] + rest) == [Found(e.start, e.end, e.value)] + FoundIn(rest)
  {
    assert ([e] + rest)[1..] == rest;
  }

  lemma {:induction false} PiecesAreWritten(env: Env, s: Text, from: nat, f: Found, found: seq<Found>, depth: nat,
                                            value: Text, rest: Text)
    requires depth <= MAX_EMBED_DEPTH && StandsIn(env, s, from, f)
    requires IsValueText(env, s, from, f, depth, value) && IsWritten(env, s, f.end, found, depth, rest)
    ensures IsWritten(env, s, from, [f] + found, depth, ProseText(env, s[from..f.start]) + value + rest)
    ensures AllKept(env, s, from, [f] + found, depth) <==>
      && env.scrubText(s[from..f.start]) == None && ValueKept(env, s, from, f, depth)
      && AllKept(env, s, f.end, found, depth)
  {
    assert ([f] + found)[1..] == found;
  }

  lemma {:induction false} FirstTwo(images: seq<Option<Text>>)
    requires |images| >= 2
    ensures NoImage(images) <==> images[0] == None && images[1] == None && NoImage(images[2..])
  {
    if images[0] == None && images[1] == None && NoImage(images[2..]) {
      forall k | 0 <= k < |images| ensures images[k] == None {
        assert k >= 2 ==> images[k] == images[2..][k - 2];
      }
    }
  }

  /** Every line is written so, around the values its pass accepted; and it is borrowed exactly when nothing of
      it is replaced. */
  lemma {:induction false} LineIsWritten(env: Env, s: Text, depth: nat)
    requires depth <= MAX_EMBED_DEPTH
    ensures IsWritten(env, s, 0, LineValues(env, s), depth, GetOr(ScrubLine(env, s, depth), s))
    ensures ScrubLine(env, s, depth) == None <==> AllKept(env, s, 0, LineValues(env, s), depth)
  {
    LinePassFollows(env, s);
    FollowsPlaced(env, s, ScanOf(env, s), 0, 0, |s| + 4096, LinePass(env, s));
    SpansAreWritten(env, s, 0, LinePass(env, s), depth);
    LazyIsEager(env, s, depth);
  }

  /** A line without an opening bracket is prose: it is scrubbed as text. */
  lemma {:induction false} BracketlessLine(env: Env, s: Text, depth: nat)
    requires depth <= MAX_EMBED_DEPTH && forall k :: 0 <= k < |s| ==> s[k] != 0x7B && s[k] != 0x5B
    ensures ScrubLine(env, s, depth) == if s == [] then None else env.scrubText(s)
  {
    LineIsWritten(env, s, depth);
    ScanOfReads(env, s);
    var r := NextStart(env, s, 0, 0, OUTSIDE);
    assert LinePass(env, s) == [];
    assert s[0..] == s;
  }
}
