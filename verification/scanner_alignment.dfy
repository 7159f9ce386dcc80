/** How the scan for a JSON start and the bracket index, which track quotes by different rules, agree: exactly
    when, and what the scan parses on the way. */
module ScannerAlignment {
  import opened Bytes
  import opened LogScanner
  import opened QuoteLexer

  // ----- What a scan visits -----

  /** One byte a scan looks at, in the lexer state it believes, and where it jumps from there. */
  datatype Visit = Visit(at: nat, quote: Quote, jump: Option<nat>)

  /** The visits of the scan from byte `i` in lexer state `q`, up to the start it returns or the end of the line. */
  function Trail(env: Env, s: Text, from: nat, i: nat, q: Quote): seq<Visit>
    requires from <= i <= |s|
    decreases |s| - i
  {
    if i == |s| then []
    else if q.inString || s[i] == QUOTE then [Visit(i, q, None)] + Trail(env, s, from, i + 1, NextQuote(q, s[i]))
    else
      match SkipTo(env, s, from, i)
      case Some(end) => [Visit(i, q, Some(end))] + Trail(env, s, from, end, q)
      case None => [Visit(i, q, None)] + if IsOpener(s[i]) then [] else Trail(env, s, from, i + 1, q)
  }

  /** The lexer state after `s[a..b]`, entered in state `q`. */
  function LexOver(s: Text, a: nat, b: nat, q: Quote): Quote
    requires a <= b <= |s|
  {
    if a == b then q else NextQuote(LexOver(s, a, b - 1, q), s[b - 1])
  }

  lemma {:induction false} LexOverLine(s: Text, a: nat, b: nat)
    requires a <= b <= |s|
    ensures LexOver(s, a, b, Lex(s, a)) == Lex(s, b)
  {
    if a < b {
      LexOverLine(s, a, b - 1);
    }
  }

  predicate VisitInStep(s: Text, v: Visit) {
    v.at <= |s| && v.quote == Lex(s, v.at)
  }

  /** The single-quoted body jumped over, lexed on its own, ends outside double-quoted strings. */
  predicate BodyCloses(s: Text, v: Visit) {
    v.jump.Some? ==> v.at < v.jump.value <= |s| && LexOver(s, v.at + 1, v.jump.value, OUTSIDE) == OUTSIDE
  }

  /** The body jumped over holds no opener the bracket index knows. */
  predicate BodyHidesNothing(s: Text, v: Visit) {
    v.jump.Some? ==> forall x :: v.at < x < v.jump.value ==> !OpenAt(s, x)
  }

  /** At every byte visited the scan is in the lexer state of the bracket index. */
  predicate InStep(s: Text, trail: seq<Visit>) {
    forall v :: v in trail ==> VisitInStep(s, v)
  }

  predicate BodiesClose(s: Text, trail: seq<Visit>) {
    forall v :: v in trail ==> BodyCloses(s, v)
  }

  predicate NothingHidden(s: Text, trail: seq<Visit>) {
    forall v :: v in trail ==> BodyHidesNothing(s, v)
  }

  lemma {:induction false} TrailOne(s: Text, v: Visit)
    ensures InStep(s, [v]) <==> VisitInStep(s, v)
    ensures BodiesClose(s, [v]) <==> BodyCloses(s, v)
    ensures NothingHidden(s, [v]) <==> BodyHidesNothing(s, v)
  {
    assert v in [v];
  }

  /** First opener outside double-quoted strings at or after `i`, as the bracket index sees the line. */
  function NextOpen(s: Text, i: nat): (r: Option<nat>)
    requires i <= |s|
    ensures r.Some? ==> i <= r.value && OpenAt(s, r.value) && forall k :: i <= k < r.value ==> !OpenAt(s, k)
    ensures r == None ==> forall k :: i <= k < |s| ==> !OpenAt(s, k)
    decreases |s| - i
  {
    if i == |s| then None else if OpenAt(s, i) then Some(i) else NextOpen(s, i + 1)
  }

  // ----- One scan, from outside strings or in step inside one -----

  /** The scan tracks the index's lexer exactly while the bodies it jumps over close their strings; then what it
      returns is an opener of the index, the next one exactly when no body hides one. */
  predicate ScanAgrees(s: Text, from: nat, next: Option<nat>, trail: seq<Visit>)
    requires from <= |s|
  {
    && (InStep(s, trail) <==> BodiesClose(s, trail))
    && (BodiesClose(s, trail) && next.Some? ==> OpenAt(s, next.value))
    && (BodiesClose(s, trail) ==> (next == NextOpen(s, from) <==> NothingHidden(s, trail)))
  }

  /** One byte that neither starts a value nor a jump. */
  lemma {:induction false} ByteThenAgrees(env: Env, s: Text, from: nat, i: nat)
    requires from <= i < |s|
    requires Lex(s, i).inString || s[i] == QUOTE || (SkipTo(env, s, from, i) == None && !IsOpener(s[i]))
    ensures var q, next := Lex(s, i), Lex(s, i + 1);
            var r, rest := NextStart(env, s, from, i + 1, next), Trail(env, s, from, i + 1, next);
            && NextStart(env, s, from, i, q) == r
            && (BodiesClose(s, Trail(env, s, from, i, q)) <==> BodiesClose(s, rest))
            && (ScanAgrees(s, i + 1, r, rest) ==> ScanAgrees(s, i, r, Trail(env, s, from, i, q)))
  {
    var q, next := Lex(s, i), Lex(s, i + 1);
    assert next == NextQuote(q, s[i]);
    assert Trail(env, s, from, i, q) == [Visit(i, q, None)] + Trail(env, s, from, i + 1, next);
    TrailOne(s, Visit(i, q, None));
    assert NextOpen(s, i) == NextOpen(s, i + 1);
  }

  /** A scan stops at an opener outside strings. */
  lemma {:induction false} OpenerAgrees(env: Env, s: Text, from: nat, i: nat)
    requires from <= i < |s| && Lex(s, i) == OUTSIDE && SkipTo(env, s, from, i) == None && IsOpener(s[i])
    ensures NextStart(env, s, from, i, OUTSIDE) == Some(i)
    ensures ScanAgrees(s, i, Some(i), Trail(env, s, from, i, OUTSIDE))
  {
    assert Trail(env, s, from, i, OUTSIDE) == [Visit(i, OUTSIDE, None)];
    TrailOne(s, Visit(i, OUTSIDE, None));
  }

  /** One jump. */
  lemma {:induction false} JumpShape(env: Env, s: Text, from: nat, i: nat, end: nat)
    requires from <= i < end < |s| && Lex(s, i) == OUTSIDE && SkipTo(env, s, from, i) == Some(end)
    ensures Trail(env, s, from, i, OUTSIDE) == [Visit(i, OUTSIDE, Some(end))] + Trail(env, s, from, end, OUTSIDE)
    ensures NextStart(env, s, from, i, OUTSIDE) == NextStart(env, s, from, end, OUTSIDE)
    ensures BodyCloses(s, Visit(i, OUTSIDE, Some(end))) <==> Lex(s, end) == OUTSIDE
    ensures VisitInStep(s, Visit(i, OUTSIDE, Some(end)))
  {
    assert Lex(s, i + 1) == NextQuote(Lex(s, i), s[i]) == OUTSIDE;
    LexOverLine(s, i + 1, end);
  }

  lemma {:induction false} JumpOutOfStep(env: Env, s: Text, from: nat, i: nat, end: nat)
    requires from <= i < end < |s| && Lex(s, i) == OUTSIDE && SkipTo(env, s, from, i) == Some(end)
    requires Lex(s, end) != OUTSIDE
    ensures var trail := Trail(env, s, from, i, OUTSIDE); !InStep(s, trail) && !BodiesClose(s, trail)
  {
    var here, rest := Visit(i, OUTSIDE, Some(end)), Trail(env, s, from, end, OUTSIDE);
    JumpShape(env, s, from, i, end);
    TrailOne(s, here);
    assert rest != [] && rest[0].at == end && rest[0].quote == OUTSIDE;
    assert rest[0] in rest && !VisitInStep(s, rest[0]);
  }

  lemma {:induction false} JumpThenAgrees(env: Env, s: Text, from: nat, i: nat, end: nat)
    requires from <= i < end < |s| && Lex(s, i) == OUTSIDE && SkipTo(env, s, from, i) == Some(end)
    requires Lex(s, end) == OUTSIDE
    requires ScanAgrees(s, end, NextStart(env, s, from, end, OUTSIDE), Trail(env, s, from, end, OUTSIDE))
    ensures ScanAgrees(s, i, NextStart(env, s, from, i, OUTSIDE), Trail(env, s, from, i, OUTSIDE))
  {
    JumpShape(env, s, from, i, end);
    var next, rest := NextStart(env, s, from, end, OUTSIDE), Trail(env, s, from, end, OUTSIDE);
    PastBodyAgrees(s, Visit(i, OUTSIDE, Some(end)), end, next, rest);
  }

  lemma {:induction false} PastBodyAgrees(s: Text, here: Visit, end: nat, next: Option<nat>, rest: seq<Visit>)
    requires here.jump == Some(end) && here.at < end < |s| && !OpenAt(s, here.at)
    requires VisitInStep(s, here) && BodyCloses(s, here)
    requires ScanAgrees(s, end, next, rest) && (next.Some? ==> end <= next.value)
    ensures ScanAgrees(s, here.at, next, [here] + rest)
  {
    TrailOne(s, here);
    if BodyHidesNothing(s, here) {
    } else {
      var x :| here.at < x < end && OpenAt(s, x);
      assert NextOpen(s, here.at).Some? && NextOpen(s, here.at).value <= x;
    }
  }

  lemma {:induction false} ScanInStep(env: Env, s: Text, from: nat, i: nat)
    requires from <= i <= |s|
    ensures ScanAgrees(s, i, NextStart(env, s, from, i, Lex(s, i)), Trail(env, s, from, i, Lex(s, i)))
    decreases |s| - i
  {
    if i < |s| {
      var q, skip := Lex(s, i), SkipTo(env, s, from, i);
      if q.inString || s[i] == QUOTE || (skip == None && !IsOpener(s[i])) {
        ScanInStep(env, s, from, i + 1);
        ByteThenAgrees(env, s, from, i);
      } else if skip == None {
        OpenerAgrees(env, s, from, i);
      } else if Lex(s, skip.value) == OUTSIDE {
        ScanInStep(env, s, from, skip.value);
        JumpThenAgrees(env, s, from, i, skip.value);
      } else {
        JumpOutOfStep(env, s, from, i, skip.value);
      }
    }
  }

  lemma {:induction false} NoSingleQuoteNoJump(env: Env, s: Text, from: nat, i: nat, q: Quote)
    requires from <= i <= |s| && APOSTROPHE !in s
    ensures var trail := Trail(env, s, from, i, q); BodiesClose(s, trail) && NothingHidden(s, trail)
    decreases |s| - i
  {
    if i < |s| {
      TrailOne(s, Visit(i, q, None));
      if q.inString || !IsOpener(s[i]) {
        NoSingleQuoteNoJump(env, s, from, i + 1, NextQuote(q, s[i]));
      }
    }
  }

  /** From a position outside strings: the scan stays in step with the index if and only if the bodies it
      jumps over close; then it returns an opener of the index, the next one if and only if no body hides
      one. On a line with no single quote there is nothing to jump over. */
  lemma {:induction false} ScannersAgree(env: Env, s: Text, from: nat)
    requires from <= |s| && Lex(s, from) == OUTSIDE
    ensures var trail, next := Trail(env, s, from, from, OUTSIDE), NextStart(env, s, from, from, OUTSIDE);
            && (InStep(s, trail) <==> BodiesClose(s, trail))
            && (BodiesClose(s, trail) && next.Some? ==> OpenAt(s, next.value))
            && (BodiesClose(s, trail) ==> (next == NextOpen(s, from) <==> NothingHidden(s, trail)))
            && (APOSTROPHE !in s ==> BodiesClose(s, trail) && NothingHidden(s, trail))
  {
    ScanInStep(env, s, from, from);
    if APOSTROPHE !in s {
      NoSingleQuoteNoJump(env, s, from, from, OUTSIDE);
    }
  }

  /** The line begins with an equals sign, a double quote in single quotes, and an opening brace. */
  predicate Misaligned(line: Text) {
    && |line| >= 5
    && line[0] == EQUALS && line[1] == APOSTROPHE && line[2] == QUOTE && line[3] == APOSTROPHE && line[4] == 0x7B
  }

  /** What such a jump costs: on a line that begins so, the scan jumps over the quoted double quote and returns
      the brace, while the index reads it as inside a string and has no end for it. */
  lemma {:induction false} ScannersDisagree(env: Env, line: Text)
    requires Misaligned(line) && env.parse([QUOTE]) == None
    ensures NextStart(env, line, 0, 0, OUTSIDE) == Some(4) && ValueEndOf(line, 4) == None
    ensures !BodiesClose(line, Trail(env, line, 0, 0, OUTSIDE))
  {
    MisalignedScan(env, line);
    ByteThenAgrees(env, line, 0, 0);
    JumpOutOfStep(env, line, 0, 1, 3);
  }

  lemma {:induction false} MisalignedScan(env: Env, line: Text)
    requires Misaligned(line) && env.parse([QUOTE]) == None
    ensures SkipTo(env, line, 0, 0) == None && SkipTo(env, line, 0, 1) == Some(3) && !IsOpener(line[0])
    ensures NextStart(env, line, 0, 0, OUTSIDE) == Some(4)
  {
    assert line[2..3] == [QUOTE];
    assert MatchingSingleQuote(line, 2) == MatchingSingleQuote(line, 3) == Some(3);
    assert OpensSingleQuote(line, 1) && !OpensSingleQuote(line, 3);
    assert SkipTo(env, line, 0, 3) == None && SkipTo(env, line, 0, 4) == None;
    assert NextStart(env, line, 0, 3, OUTSIDE) == NextStart(env, line, 0, 4, OUTSIDE) == Some(4);
    assert NextStart(env, line, 0, 1, OUTSIDE) == NextStart(env, line, 0, 3, OUTSIDE);
  }

  // ----- What a scan parses -----

  /** The next single quote at or after `i`, or the end of the line. */
  function QuotePos(s: Text, i: nat): (at: nat)
    requires i <= |s|
    ensures i <= at <= |s|
  {
    match MatchingSingleQuote(s, i)
    case Some(at) => at
    case None => |s|
  }

  lemma {:induction false} QuotePosGrows(s: Text, i: nat, j: nat)
    requires i <= j <= |s|
    ensures QuotePos(s, i) <= QuotePos(s, j)
    decreases j - i
  {
    if i < j {
      QuotePosGrows(s, i + 1, j);
    }
  }

  /** Where the next scan may begin: past the start this one returned, or nowhere. */
  function After(s: Text, start: Option<nat>): (at: nat)
    requires start.Some? ==> start.value < |s|
    ensures at <= |s|
  {
    match start
    case Some(at) => at + 1
    case None => |s|
  }

  /** A tried body ends at the next single quote, so the bodies one scan tries are disjoint, and they end
      before the next single quote after the start it returns. */
  lemma {:induction false} TriedIsDisjoint(env: Env, s: Text, from: nat, i: nat, q: Quote)
    requires from <= i <= |s|
    ensures ScanTried(env, s, from, i, q) + QuotePos(s, i) <= QuotePos(s, After(s, NextStart(env, s, from, i, q)))
    decreases |s| - i
  {
    var r := NextStart(env, s, from, i, q);
    if i < |s| {
      QuotePosGrows(s, i, i + 1);
      if q.inString || s[i] == QUOTE {
        TriedIsDisjoint(env, s, from, i + 1, NextQuote(q, s[i]));
      } else {
        var skip := SkipTo(env, s, from, i);
        if skip.Some? {
          TriedIsDisjoint(env, s, from, skip.value, q);
          JumpTries(env, s, from, i, skip.value);
        } else if IsOpener(s[i]) {
          assert r == Some(i);
        } else {
          TriedIsDisjoint(env, s, from, i + 1, q);
          BodyTries(env, s, from, i);
        }
      }
    }
  }

  lemma {:induction false} BodyTries(env: Env, s: Text, from: nat, i: nat)
    requires from <= i < |s|
    ensures TriedBody(env, s, from, i) + QuotePos(s, i) <= QuotePos(s, i + 1)
  {
    QuotePosGrows(s, i, i + 1);
  }

  lemma {:induction false} JumpTries(env: Env, s: Text, from: nat, i: nat, end: nat)
    requires from <= i < end < |s| && SkipTo(env, s, from, i) == Some(end)
    ensures TriedBody(env, s, from, i) + QuotePos(s, i) <= QuotePos(s, end) == end
  {
    BodyTries(env, s, from, i);
  }
}
