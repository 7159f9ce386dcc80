/** What the scrubber keeps: the line's bytes outside replaced spans, the probe budget, and JSON shape. */
module LogScrubberTheorems {
  import opened Bytes
  import opened QuoteLexer
  import opened LogScanner
  import opened LogScrubber

  // ----- The lazy buffer is the eager splice -----

  lemma {:induction false} OriginalSplits(spans: seq<Span>, d: nat, n: nat)
    requires d + n <= |spans|
    ensures Original(spans, d + n) == Original(spans, d) + Original(spans[d..], n)
  {
    if n > 0 {
      OriginalSplits(spans, d, n - 1);
      assert spans[d + n - 1] == spans[d..][n - 1];
    }
  }

  lemma {:induction false} OriginalPair(spans: seq<Span>, a: Text, b: Text)
    requires |spans| >= 2 && spans[0].text == a && spans[1].text == b
    ensures Original(spans, 2) == a + b
  {
    assert Original(spans, 1) == Original(spans, 0) + a == a;
  }

  lemma {:induction false} ThreeParts<T>(s: seq<T>, i: nat, a: nat, b: nat)
    requires i <= a <= b <= |s|
    ensures (s[i..a] + s[a..b]) + s[b..] == s[i..]
  {
    JoinSlices(s, i, a, b);
    JoinSlices(s, i, b, |s|);
    assert s[b..] == s[b..|s|] && s[i..] == s[i..|s|];
  }

  /** The spans partition the rest of the line: in order, with nothing lost, repeated or overlapping. */
  lemma {:induction false} SpansPartition(env: Env, s: Text, i: nat, events: seq<Event>)
    requires i <= |s|
    ensures var spans := Spans(env, s, i, events); Original(spans, |spans|) == s[i..]
    decreases events
  {
    var spans := Spans(env, s, i, events);
    if events == [] {
      if i < |s| {
        assert Original(spans, 1) == Original(spans, 0) + spans[0].text;
      }
    } else {
      var e := events[0];
      if e.Accepted? && i <= e.start <= e.end <= |s| {
        var rest := Spans(env, s, e.end, events[1..]);
        SpansPartition(env, s, e.end, events[1..]);
        assert spans[2..] == rest;
        OriginalSplits(spans, 2, |rest|);
        OriginalPair(spans, s[i..e.start], s[e.start..e.end]);
        ThreeParts(s, i, e.start, e.end);
      } else {
        SpansPartition(env, s, i, events[1..]);
      }
    }
  }

  lemma {:induction false} LineSpansPartition(env: Env, s: Text)
    ensures Original(LineSpans(env, s), |LineSpans(env, s)|) == s
  {
    ScanOfReads(env, s);
    SpansPartition(env, s, 0, Pass(env, s, ScanOf(env, s), 0, |s| + JSON_PROBE_SLACK));
    assert s[0..] == s;
  }

  lemma {:induction false} KeptSpansAreOriginal(spans: seq<Span>, images: seq<Option<Text>>, n: nat)
    requires n <= |spans| == |images| && forall k :: 0 <= k < n ==> images[k] == None
    ensures Splice(spans, images, n) == Original(spans, n)
  {
    if n > 0 {
      KeptSpansAreOriginal(spans, images, n - 1);
    }
  }

  /** Whether or not a buffer was ever made, the line written is every span's image or own bytes, in
      order; with no buffer that is the input itself. */
  lemma {:induction false} LazyIsEager(env: Env, s: Text, depth: nat)
    requires depth <= MAX_EMBED_DEPTH
    ensures var spans := LineSpans(env, s);
            GetOr(ScrubLine(env, s, depth), s) == Splice(spans, Images(env, spans, depth), |spans|)
    ensures ScrubLine(env, s, depth) == None <==>
            forall k :: 0 <= k < |LineSpans(env, s)| ==> Image(env, LineSpans(env, s)[k], depth) == None
  {
    var spans := LineSpans(env, s);
    var images := Images(env, spans, depth);
    LineSpansPartition(env, s);
    EmitIsEager(s, spans, images);
    assert ScrubLine(env, s, depth) == Emit(spans, images);
    assert forall k :: 0 <= k < |spans| ==> images[k] == Image(env, spans[k], depth);
  }

  lemma {:induction false} EmitIsEager(s: Text, spans: seq<Span>, images: seq<Option<Text>>)
    requires |images| == |spans| && Original(spans, |spans|) == s
    ensures GetOr(Emit(spans, images), s) == Splice(spans, images, |spans|)
    ensures Emit(spans, images) == None <==> forall k :: 0 <= k < |images| ==> images[k] == None
  {
    if Emit(spans, images) == None {
      KeptSpansAreOriginal(spans, images, |spans|);
    }
  }

  // ----- JSON values -----

  predicate IsLeaf(v: Json) {
    !v.Array? && !v.Object?
  }

  /** Same arrays, objects and keys, with a leaf for every leaf. */
  predicate SameShape(v: Json, w: Json) {
    match v
    case Array(items) =>
      w.Array? && |w.items| == |items| && forall k :: 0 <= k < |items| ==> SameShape(items[k], w.items[k])
    case Object(entries) =>
      && w.Object? && |w.entries| == |entries|
      && forall k :: 0 <= k < |entries| ==>
           entries[k].key == w.entries[k].key && SameShape(entries[k].value, w.entries[k].value)
    case _ => IsLeaf(w)
  }

  predicate AllMasked(v: Json) {
    match v
    case Array(items) => forall k :: 0 <= k < |items| ==> AllMasked(items[k])
    case Object(entries) => forall k :: 0 <= k < |entries| ==> AllMasked(entries[k].value)
    case _ => v == String(MASK)
  }

  lemma {:induction false} MaskItemsAt(items: seq<Json>, n: nat)
    requires n <= |items|
    ensures var r := MaskItems(items, n);
            && (forall k :: 0 <= k < n ==> r.items[k] == MaskLeaves(items[k]).value)
            && (r.changed <==> exists k :: 0 <= k < n && MaskLeaves(items[k]).changed)
  {
    if n > 0 {
      MaskItemsAt(items, n - 1);
    }
  }

  lemma {:induction false} MaskEntriesAt(entries: seq<Entry>, n: nat)
    requires n <= |entries|
    ensures var r := MaskEntries(entries, n);
            && (forall k :: 0 <= k < n ==> r.entries[k] == Entry(entries[k].key, MaskLeaves(entries[k].value).value))
            && (r.changed <==> exists k :: 0 <= k < n && MaskLeaves(entries[k].value).changed)
  {
    if n > 0 {
      MaskEntriesAt(entries, n - 1);
    }
  }

  /** Masking a subtree keeps its shape and turns every leaf into the mask; it reports a change exactly
      when the value differs. */
  lemma {:induction false} MaskLeavesIsExact(v: Json)
    ensures var r := MaskLeaves(v); SameShape(v, r.value) && AllMasked(r.value) && (r.changed <==> r.value != v)
    decreases v
  {
    match v
    case Array(items) =>
      MaskItemsAt(items, |items|);
      forall k | 0 <= k < |items|
        ensures var r := MaskLeaves(items[k]);
                SameShape(items[k], r.value) && AllMasked(r.value) && (r.changed <==> r.value != items[k])
      {
        MaskLeavesIsExact(items[k]);
      }
      ItemsDiffer(items);
    case Object(entries) =>
      MaskEntriesAt(entries, |entries|);
      forall k | 0 <= k < |entries|
        ensures var e := entries[k]; var r := MaskLeaves(e.value);
                SameShape(e.value, r.value) && AllMasked(r.value) && (r.changed <==> r.value != e.value)
      {
        MaskLeavesIsExact(entries[k].value);
      }
      EntriesDiffer(entries);
    case _ =>
  }

  lemma {:induction false} ItemsDiffer(items: seq<Json>)
    requires forall k :: 0 <= k < |items| ==> (MaskLeaves(items[k]).changed <==> MaskLeaves(items[k]).value != items[k])
    ensures var r := MaskItems(items, |items|); r.changed <==> r.items != items
  {
    MaskItemsAt(items, |items|);
    var r := MaskItems(items, |items|);
    if !r.changed {
      assert forall k :: 0 <= k < |items| ==> r.items[k] == items[k];
    }
  }

  lemma {:induction false} EntriesDiffer(entries: seq<Entry>)
    requires forall k :: 0 <= k < |entries| ==>
      (MaskLeaves(entries[k].value).changed <==> MaskLeaves(entries[k].value).value != entries[k].value)
    ensures var r := MaskEntries(entries, |entries|); r.changed <==> r.entries != entries
  {
    MaskEntriesAt(entries, |entries|);
    var r := MaskEntries(entries, |entries|);
    if !r.changed {
      assert forall k :: 0 <= k < |entries| ==> r.entries[k] == entries[k];
    }
  }

  /** What scrubbing a string gives: as a line of its own, one level deeper, or as plain text at the last level. */
  function CleanResult(env: Env, text: Text, depth: nat): Option<Text>
    requires depth <= MAX_EMBED_DEPTH
  {
    if depth >= 8 then env.scrubText(text) else ScrubLine(env, text, depth + 1)
  }

  function CleanText(env: Env, text: Text, depth: nat): Text
    requires depth <= MAX_EMBED_DEPTH
  {
    match CleanResult(env, text, depth)
    case Some(cleaned) => cleaned
    case None => text
  }

  /** Some string outside secret keys has a scrub result, or some leaf under a secret-named key is not the mask. */
  predicate Touched(env: Env, v: Json, depth: nat)
    requires depth <= MAX_EMBED_DEPTH
    decreases v
  {
    match v
    case String(text) => CleanResult(env, text, depth).Some?
    case Array(items) => exists k :: 0 <= k < |items| && Touched(env, items[k], depth)
    case Object(entries) => exists k :: 0 <= k < |entries| && TouchedEntry(env, entries[k], depth)
    case _ => false
  }

  predicate TouchedEntry(env: Env, e: Entry, depth: nat)
    requires depth <= MAX_EMBED_DEPTH
    decreases e
  {
    if env.isSecretKey(e.key) then !AllMasked(e.value) else Touched(env, e.value, depth)
  }

  /** `w` is `v` with every string outside secret keys cleaned and every leaf under a secret-named key the
      mask: shape and keys are kept, and other leaves outside secret keys are untouched. */
  predicate Sanitized(env: Env, v: Json, w: Json, depth: nat)
    requires depth <= MAX_EMBED_DEPTH
    decreases v
  {
    match v
    case String(text) => w == String(CleanText(env, text, depth))
    case Array(items) =>
      w.Array? && |w.items| == |items| && forall k :: 0 <= k < |items| ==> Sanitized(env, items[k], w.items[k], depth)
    case Object(entries) =>
      && w.Object? && |w.entries| == |entries|
      && forall k :: 0 <= k < |entries| ==> SanitizedEntry(env, entries[k], w.entries[k], depth)
    case _ => w == v
  }

  predicate SanitizedEntry(env: Env, e: Entry, f: Entry, depth: nat)
    requires depth <= MAX_EMBED_DEPTH
    decreases e
  {
    && f.key == e.key
    && if env.isSecretKey(e.key) then SameShape(e.value, f.value) && AllMasked(f.value)
       else Sanitized(env, e.value, f.value, depth)
  }

  lemma {:induction false} ScrubItemsAt(env: Env, items: seq<Json>, depth: nat, n: nat)
    requires depth <= MAX_EMBED_DEPTH && n <= |items|
    ensures var r := ScrubItems(env, items, depth, n);
            && (forall k :: 0 <= k < n ==> r.items[k] == ScrubJson(env, items[k], depth).value)
            && (r.changed <==> exists k :: 0 <= k < n && ScrubJson(env, items[k], depth).changed)
  {
    if n > 0 {
      ScrubItemsAt(env, items, depth, n - 1);
    }
  }

  lemma {:induction false} ScrubEntriesAt(env: Env, entries: seq<Entry>, depth: nat, n: nat)
    requires depth <= MAX_EMBED_DEPTH && n <= |entries|
    ensures var r := ScrubEntries(env, entries, depth, n);
            && (forall k :: 0 <= k < n ==>
              r.entries[k] == Entry(entries[k].key, ScrubEntry(env, entries[k], depth).value))
            && (r.changed <==> exists k :: 0 <= k < n && ScrubEntry(env, entries[k], depth).changed)
  {
    if n > 0 {
      ScrubEntriesAt(env, entries, depth, n - 1);
    }
  }

  lemma {:induction false} MaskedAlike(v: Json, w: Json, x: Json)
    requires SameShape(v, w) && AllMasked(w) && SameShape(v, x) && AllMasked(x)
    ensures w == x
    decreases v
  {
    match v
    case Array(items) =>
      forall k | 0 <= k < |items| ensures w.items[k] == x.items[k] {
        MaskedAlike(items[k], w.items[k], x.items[k]);
      }
      assert w.items == x.items;
    case Object(entries) =>
      forall k | 0 <= k < |entries| ensures w.entries[k] == x.entries[k] {
        MaskedAlike(entries[k].value, w.entries[k].value, x.entries[k].value);
      }
      assert w.entries == x.entries;
    case _ =>
  }

  lemma {:induction false} ShapeOfItself(v: Json)
    ensures SameShape(v, v)
    decreases v
  {
    match v
    case Array(items) =>
      forall k | 0 <= k < |items| ensures SameShape(items[k], items[k]) {
        ShapeOfItself(items[k]);
      }
    case Object(entries) =>
      forall k | 0 <= k < |entries| ensures SameShape(entries[k].value, entries[k].value) {
        ShapeOfItself(entries[k].value);
      }
    case _ =>
  }

  /** Masking reports a change exactly when some leaf is not the mask. */
  lemma {:induction false} MaskChanges(v: Json)
    ensures MaskLeaves(v).changed <==> !AllMasked(v)
  {
    MaskLeavesIsExact(v);
    ShapeOfItself(v);
    if AllMasked(v) {
      MaskedAlike(v, v, MaskLeaves(v).value);
    }
  }

  lemma {:induction false} ScrubEntrySanitizes(env: Env, e: Entry, depth: nat)
    requires depth <= MAX_EMBED_DEPTH
    requires !env.isSecretKey(e.key) ==>
      var r := ScrubJson(env, e.value, depth);
      && Sanitized(env, e.value, r.value, depth) && (!r.changed ==> r.value == e.value)
      && (r.changed <==> Touched(env, e.value, depth))
    ensures var r := ScrubEntry(env, e, depth);
            && SanitizedEntry(env, e, Entry(e.key, r.value), depth)
            && (!r.changed ==> r.value == e.value) && (r.changed <==> TouchedEntry(env, e, depth))
  {
    MaskLeavesIsExact(e.value);
    MaskChanges(e.value);
  }

  /** Scrubbing a value sanitizes it, reports a change exactly when something in it was touched, and leaves a
      value reported unchanged as it was. */
  lemma {:induction false} ScrubJsonSanitizes(env: Env, v: Json, depth: nat)
    requires depth <= MAX_EMBED_DEPTH
    ensures var r := ScrubJson(env, v, depth);
            && Sanitized(env, v, r.value, depth) && (!r.changed ==> r.value == v)
            && (r.changed <==> Touched(env, v, depth))
    decreases v
  {
    match v
    case Array(items) =>
      ScrubItemsAt(env, items, depth, |items|);
      forall k | 0 <= k < |items|
        ensures var r := ScrubJson(env, items[k], depth);
                && Sanitized(env, items[k], r.value, depth) && (!r.changed ==> r.value == items[k])
                && (r.changed <==> Touched(env, items[k], depth))
      {
        ScrubJsonSanitizes(env, items[k], depth);
      }
      KeptItems(items, ScrubItems(env, items, depth, |items|).items);
    case Object(entries) =>
      ScrubEntriesAt(env, entries, depth, |entries|);
      forall k | 0 <= k < |entries|
        ensures var r := ScrubEntry(env, entries[k], depth);
                && SanitizedEntry(env, entries[k], Entry(entries[k].key, r.value), depth)
                && (!r.changed ==> r.value == entries[k].value) && (r.changed <==> TouchedEntry(env, entries[k], depth))
      {
        if !env.isSecretKey(entries[k].key) {
          ScrubJsonSanitizes(env, entries[k].value, depth);
        }
        ScrubEntrySanitizes(env, entries[k], depth);
      }
      KeptItems(entries, ScrubEntries(env, entries, depth, |entries|).entries);
    case _ =>
  }

  lemma {:induction false} KeptItems<T>(a: seq<T>, b: seq<T>)
    ensures |a| == |b| && (forall k :: 0 <= k < |a| ==> a[k] == b[k]) ==> a == b
  {
  }

  /** What sanitizing gives is determined by the value. */
  lemma {:induction false} SanitizedAlike(env: Env, v: Json, w: Json, x: Json, depth: nat)
    requires depth <= MAX_EMBED_DEPTH && Sanitized(env, v, w, depth) && Sanitized(env, v, x, depth)
    ensures w == x
    decreases v
  {
    match v
    case Array(items) =>
      forall k | 0 <= k < |items| ensures w.items[k] == x.items[k] {
        SanitizedAlike(env, items[k], w.items[k], x.items[k], depth);
      }
      assert w.items == x.items;
    case Object(entries) =>
      forall k | 0 <= k < |entries| ensures w.entries[k] == x.entries[k] {
        if env.isSecretKey(entries[k].key) {
          MaskedAlike(entries[k].value, w.entries[k].value, x.entries[k].value);
        } else {
          SanitizedAlike(env, entries[k].value, w.entries[k].value, x.entries[k].value, depth);
        }
      }
      assert w.entries == x.entries;
    case _ =>
  }
}
