/** One pass of probes over a line: where it looks, what it parses, and what that may cost. */
module PassTheorems {
  import opened Bytes
  import opened LogScanner
  import opened LogScrubber
  import opened QuoteLexer
  import opened ScannerAlignment

  // ----- Where a pass looks -----

  predicate IsContainer(v: Option<Json>) {
    v.Some? && (v.value.Array? || v.value.Object?)
  }

  /** One probe, with `left` bytes to spend: of the next start after `from`, over budget exactly when its
      balanced text is longer than that, and otherwise accepted exactly when that text is an array or object. */
  predicate ProbesAt(env: Env, s: Text, scan: Scan, from: nat, left: int, e: Event) {
    && scan.next(from) == Some(e.start) && from <= e.start < |s|
    && match scan.end(e.start)
       case None => e.Unbalanced?
       case Some(end) =>
         && !e.Unbalanced? && e.end == end && e.start < end <= |s|
         && (e.OverBudget? <==> end - e.start > left)
         && (e.Accepted? ==> IsContainer(Some(e.value)) && env.parse(s[e.start..end]) == Some(e.value))
         && (e.Rejected? ==> !IsContainer(env.parse(s[e.start..end])))
  }

  /** What is left to spend after an event: less by the text of a candidate that was parsed. */
  function LeftAfter(e: Event, left: int): int {
    if e.Rejected? || e.Accepted? then left - (e.end - e.start) else left
  }

  /** Every event probes the next start after the one before it, until there is none or one is over budget. */
  predicate Follows(env: Env, s: Text, scan: Scan, from: nat, left: int, events: seq<Event>)
    decreases events
  {
    from <= |s| &&
    if events == [] then scan.next(from) == None
    else
      var e := events[0];
      && ProbesAt(env, s, scan, from, left, e)
      && if e.OverBudget? then |events| == 1
         else Follows(env, s, scan, if e.Accepted? then e.end else e.start + 1, LeftAfter(e, left), events[1..])
  }

  lemma {:induction false} ProbeIsAt(env: Env, s: Text, scan: Scan, from: nat, budget: nat, e: Event)
    requires InLine(scan, |s|) && scan.next(from) == Some(e.start) && e == Probe(env, s, scan, e.start, budget)
    ensures ProbesAt(env, s, scan, from, budget, e)
    ensures e.Rejected? || e.Accepted? ==> LeftAfter(e, budget) == budget - Cost(e)
    ensures e.Unbalanced? ==> LeftAfter(e, budget) == budget == budget - Cost(e)
  {
  }

  lemma {:induction false} PassFollows(env: Env, s: Text, scan: Scan, search: nat, budget: nat)
    requires InLine(scan, |s|) && search <= |s|
    ensures Follows(env, s, scan, search, budget, Pass(env, s, scan, search, budget))
    decreases |s| - search
  {
    var events := Pass(env, s, scan, search, budget);
    if events != [] {
      PassUnfolds(env, s, scan, search, budget);
      var e := events[0];
      ProbeIsAt(env, s, scan, search, budget, e);
      if !e.OverBudget? {
        PassFollows(env, s, scan, Resume(e), budget - Cost(e));
      }
    }
  }

  /** The bytes of all candidates that were parsed. */
  function TotalCost(events: seq<Event>): int {
    if events == [] then 0
    else
      var e := events[0];
      (if e.Rejected? || e.Accepted? then e.end - e.start else 0) + TotalCost(events[1..])
  }

  /** The bytes of the candidates that balanced but did not parse. */
  function FailedCost(events: seq<Event>): int {
    if events == [] then 0
    else (if events[0].Rejected? then events[0].end - events[0].start else 0) + FailedCost(events[1..])
  }

  lemma {:induction false} SpendsWithinBudget(env: Env, s: Text, scan: Scan, search: nat, budget: nat)
    requires InLine(scan, |s|) && search <= |s|
    ensures TotalCost(Pass(env, s, scan, search, budget)) <= budget
    decreases |s| - search
  {
    var events := Pass(env, s, scan, search, budget);
    if events != [] {
      PassUnfolds(env, s, scan, search, budget);
      var e := events[0];
      if !e.OverBudget? {
        SpendsWithinBudget(env, s, scan, Resume(e), budget - Cost(e));
      }
    }
  }

  /** While failed candidates fit the slack, no candidate is over budget: accepted values are disjoint and
      lie before the cursor, so they never cost more than the bytes already passed. */
  lemma {:induction false} SlackSuffices(env: Env, s: Text, scan: Scan, search: nat, budget: nat, slack: int)
    requires InLine(scan, |s|) && search <= |s| && budget >= |s| - search + slack
    requires FailedCost(Pass(env, s, scan, search, budget)) <= slack
    ensures AllAffordable(Pass(env, s, scan, search, budget))
    decreases |s| - search
  {
    var events := Pass(env, s, scan, search, budget);
    if events != [] {
      PassUnfolds(env, s, scan, search, budget);
      var e := events[0];
      SlackSuffices(env, s, scan, Resume(e), budget - Cost(e), if e.Rejected? then slack - Cost(e) else slack);
    }
  }

  predicate AllAffordable(events: seq<Event>) {
    events == [] || (!events[0].OverBudget? && AllAffordable(events[1..]))
  }

  function LinePass(env: Env, s: Text): seq<Event> {
    ScanOfReads(env, s);
    Pass(env, s, ScanOf(env, s), 0, |s| + JSON_PROBE_SLACK)
  }

  /** The pass of a line starts at its first byte with the length of the line and 4096 to spend. */
  lemma {:induction false} LinePassFollows(env: Env, s: Text)
    ensures Follows(env, s, ScanOf(env, s), 0, |s| + 4096, LinePass(env, s))
  {
    ScanOfReads(env, s);
    PassFollows(env, s, ScanOf(env, s), 0, |s| + JSON_PROBE_SLACK);
  }

  /** Both sides of the probe budget of a line. */
  lemma {:induction false} ProbeBudget(env: Env, s: Text)
    ensures TotalCost(LinePass(env, s)) <= |s| + 4096
    ensures FailedCost(LinePass(env, s)) <= 4096 ==> AllAffordable(LinePass(env, s))
  {
    var scan := ScanOf(env, s);
    ScanOfReads(env, s);
    SpendsWithinBudget(env, s, scan, 0, |s| + JSON_PROBE_SLACK);
    if FailedCost(LinePass(env, s)) <= JSON_PROBE_SLACK {
      SlackSuffices(env, s, scan, 0, |s| + JSON_PROBE_SLACK, JSON_PROBE_SLACK);
    }
  }

  // ----- The parses the budget is not charged for -----

  /** The bytes of single-quoted bodies that the scans of a pass give to the JSON parser. */
  function PassTried(env: Env, s: Text, from: nat, events: seq<Event>): nat
    requires from <= |s|
    decreases events
  {
    ScanTried(env, s, from, from, OUTSIDE) +
    if events == [] || events[0].OverBudget? || Resume(events[0]) > |s| then 0
    else PassTried(env, s, Resume(events[0]), events[1..])
  }

  /** One scan of a pass tries only bodies before the next single quote after the start it returns. */
  lemma {:induction false} ScanTriesApart(env: Env, s: Text, scan: Scan, search: nat, at: nat)
    requires InLine(scan, |s|) && Reads(scan, env, s) && search <= |s|
    requires at <= |s| && if scan.next(search) == None then at == |s| else scan.next(search).value < at
    ensures ScanTried(env, s, search, search, OUTSIDE) + QuotePos(s, search) <= QuotePos(s, at)
  {
    TriedIsDisjoint(env, s, search, search, OUTSIDE);
    assert scan.next(search) == NextStart(env, s, search, search, OUTSIDE);
    QuotePosGrows(s, After(s, scan.next(search)), at);
  }

  lemma {:induction false} ScanThenPassTries(env: Env, s: Text, from: nat, e: Event, rest: seq<Event>)
    requires from <= |s| && !e.OverBudget? && Resume(e) <= |s|
    requires ScanTried(env, s, from, from, OUTSIDE) + QuotePos(s, from) <= QuotePos(s, Resume(e))
    requires PassTried(env, s, Resume(e), rest) + QuotePos(s, Resume(e)) <= |s|
    ensures PassTried(env, s, from, [e] + rest) + QuotePos(s, from) <= |s|
  {
    assert ([e] + rest)[1..] == rest;
  }

  lemma {:induction false} LastScanTries(env: Env, s: Text, from: nat, events: seq<Event>)
    requires from <= |s| && (events == [] || events[0].OverBudget?)
    requires ScanTried(env, s, from, from, OUTSIDE) + QuotePos(s, from) <= |s|
    ensures PassTried(env, s, from, events) + QuotePos(s, from) <= |s|
  {
  }

  lemma {:induction false} PassTriesApart(env: Env, s: Text, scan: Scan, from: nat, left: int, events: seq<Event>)
    requires InLine(scan, |s|) && Reads(scan, env, s) && Follows(env, s, scan, from, left, events)
    ensures PassTried(env, s, from, events) + QuotePos(s, from) <= |s|
    decreases events
  {
    ScanTriesApart(env, s, scan, from, |s|);
    if events == [] || events[0].OverBudget? {
      LastScanTries(env, s, from, events);
    } else {
      var e := events[0];
      ScanTriesApart(env, s, scan, from, Resume(e));
      PassTriesApart(env, s, scan, Resume(e), LeftAfter(e, left), events[1..]);
      ScanThenPassTries(env, s, from, e, events[1..]);
    }
  }

  /** The bodies tried in one pass are disjoint, so they total at most the line; all the JSON parsing of a
      pass, charged and uncharged, is at most twice the line and the slack. */
  lemma {:induction false} ParsingBound(env: Env, s: Text)
    ensures PassTried(env, s, 0, LinePass(env, s)) <= |s|
    ensures TotalCost(LinePass(env, s)) + PassTried(env, s, 0, LinePass(env, s)) <= 2 * |s| + 4096
  {
    ScanOfReads(env, s);
    PassFollows(env, s, ScanOf(env, s), 0, |s| + JSON_PROBE_SLACK);
    PassTriesApart(env, s, ScanOf(env, s), 0, |s| + JSON_PROBE_SLACK, LinePass(env, s));
    ProbeBudget(env, s);
  }

  // ----- The two scanners over a pass -----

  /** Every candidate is looked up at an opener the bracket index knows. */
  predicate AllAtOpeners(s: Text, events: seq<Event>) {
    events == [] || (OpenAt(s, events[0].start) && AllAtOpeners(s, events[1..]))
  }

  /** The pass probes exactly the openers outside strings, each the next one from where the pass resumes,
      until there is none or one is over budget. */
  predicate FollowsOpeners(s: Text, from: nat, events: seq<Event>)
    decreases events
  {
    from <= |s| &&
    if events == [] then NextOpen(s, from) == None
    else
      && NextOpen(s, from) == Some(events[0].start)
      && (events[0].OverBudget? || FollowsOpeners(s, Resume(events[0]), events[1..]))
  }

  /** Everything the scans of a pass visit. */
  function PassTrail(env: Env, s: Text, from: nat, events: seq<Event>): seq<Visit>
    requires from <= |s|
    decreases events
  {
    Trail(env, s, from, from, OUTSIDE) +
    if events == [] || events[0].OverBudget? || Resume(events[0]) > |s| then []
    else PassTrail(env, s, Resume(events[0]), events[1..])
  }

  lemma {:induction false} ResumeOutside(s: Text, e: Event, scan: Scan, env: Env)
    requires Reads(scan, env, s) && OpenAt(s, e.start)
    requires e.Accepted? ==> scan.end(e.start) == Some(e.end)
    ensures Resume(e) <= |s| && Lex(s, Resume(e)) == OUTSIDE
  {
    if e.Accepted? {
      assert scan.end(e.start) == ValueEndOf(s, e.start);
      NaiveEndCloses(s, e.start);
      OutsideAfterClose(s, e.start, e.end);
    }
  }

  /** What `ScanAgrees` says of one scan, for all the scans of a pass. */
  predicate PassAgrees(s: Text, from: nat, events: seq<Event>, trail: seq<Visit>) {
    && (InStep(s, trail) <==> BodiesClose(s, trail))
    && (BodiesClose(s, trail) ==> AllAtOpeners(s, events))
    && (BodiesClose(s, trail) ==> (FollowsOpeners(s, from, events) <==> NothingHidden(s, trail)))
  }

  lemma {:induction false} ScanThenPassAgrees(s: Text, from: nat, e: Event, rest: seq<Event>, here: seq<Visit>,
                                              there: seq<Visit>)
    requires from <= |s| && !e.OverBudget? && ScanAgrees(s, from, Some(e.start), here)
    requires BodiesClose(s, here) ==> PassAgrees(s, Resume(e), rest, there)
    ensures PassAgrees(s, from, [e] + rest, here + there)
  {
    assert ([e] + rest)[1..] == rest;
  }

  lemma {:induction false} ScanOfPass(env: Env, s: Text, scan: Scan, search: nat)
    requires Reads(scan, env, s) && search <= |s| && Lex(s, search) == OUTSIDE
    ensures ScanAgrees(s, search, scan.next(search), Trail(env, s, search, search, OUTSIDE))
  {
    ScannersAgree(env, s, search);
    assert scan.next(search) == NextStart(env, s, search, search, OUTSIDE);
  }

  /** Over a whole pass: the scans stay in step with the index if and only if the bodies jumped over close;
      then every probe is of an opener the index knows, and the probes are exactly those openers in turn if
      and only if no body hides one. */
  lemma {:induction false} PassInStep(env: Env, s: Text, scan: Scan, from: nat, left: int, events: seq<Event>)
    requires InLine(scan, |s|) && Reads(scan, env, s) && Follows(env, s, scan, from, left, events)
    requires Lex(s, from) == OUTSIDE
    ensures PassAgrees(s, from, events, PassTrail(env, s, from, events))
    decreases events
  {
    var here := Trail(env, s, from, from, OUTSIDE);
    ScanOfPass(env, s, scan, from);
    if events == [] || events[0].OverBudget? {
      assert here + [] == here;
    } else {
      var e := events[0];
      if BodiesClose(s, here) {
        ResumeOutside(s, e, scan, env);
        PassInStep(env, s, scan, Resume(e), LeftAfter(e, left), events[1..]);
      }
      ScanThenPassAgrees(s, from, e, events[1..], here, PassTrail(env, s, Resume(e), events[1..]));
    }
  }

  lemma {:induction false} NoSingleQuoteInPass(env: Env, s: Text, from: nat, events: seq<Event>)
    requires from <= |s| && APOSTROPHE !in s
    ensures var trail := PassTrail(env, s, from, events); BodiesClose(s, trail) && NothingHidden(s, trail)
    decreases events
  {
    NoSingleQuoteNoJump(env, s, from, from, OUTSIDE);
    var here := Trail(env, s, from, from, OUTSIDE);
    if events == [] || events[0].OverBudget? || Resume(events[0]) > |s| {
      assert here + [] == here;
    } else {
      NoSingleQuoteInPass(env, s, Resume(events[0]), events[1..]);
    }
  }

  /** The same for a whole line, from its first byte; on a line with no single quote the scanners agree all along. */
  lemma {:induction false} LineScannersAgree(env: Env, s: Text)
    ensures var events := LinePass(env, s);
            var trail := PassTrail(env, s, 0, events);
            && PassAgrees(s, 0, events, trail)
            && (APOSTROPHE !in s ==> InStep(s, trail) && FollowsOpeners(s, 0, events))
  {
    ScanOfReads(env, s);
    PassFollows(env, s, ScanOf(env, s), 0, |s| + JSON_PROBE_SLACK);
    PassInStep(env, s, ScanOf(env, s), 0, |s| + JSON_PROBE_SLACK, LinePass(env, s));
    if APOSTROPHE !in s {
      NoSingleQuoteInPass(env, s, 0, LinePass(env, s));
    }
  }

  // ----- What a scan out of step costs -----

  /** On a line that begins so and holds no further bracket, the object is only ever unbalanced: the whole line
      is one prose span, and an object such as `{"token":"x"}` there is never masked as JSON. */
  lemma {:induction false} MisalignedObjectStaysProse(env: Env, line: Text)
    requires Misaligned(line) && env.parse([QUOTE]) == None && forall k :: 5 <= k < |line| ==> !IsOpener(line[k])
    ensures LinePass(env, line) == [Unbalanced(4)] && LineSpans(env, line) == [Prose(line)]
  {
    var scan, budget := ScanOf(env, line), |line| + JSON_PROBE_SLACK;
    ScannersDisagree(env, line);
    ScanOfReads(env, line);
    assert scan.next(0) == Some(4) && scan.next(5) == None && scan.end(4) == None;
    assert Pass(env, line, scan, 5, budget) == [];
    var events := Pass(env, line, scan, 0, budget);
    assert events == [Unbalanced(4)] && events[1..] == [];
    assert Spans(env, line, 0, events) == Spans(env, line, 0, []) == [Prose(line[0..])];
    assert line[0..] == line;
  }
}
