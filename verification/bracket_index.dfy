/** Double-quote tracking over the bytes of a line, and the depth counts built on it. */
module QuoteLexer {
  import opened Bytes

  type Text = seq<byte>

  const QUOTE: byte := 0x22
  const BACKSLASH: byte := 0x5C

  /** Whether a scan stands inside a double-quoted string, and whether the next byte there is escaped. */
  datatype Quote = Quote(inString: bool, escape: bool)

  const OUTSIDE := Quote(false, false)

  function NextQuote(q: Quote, c: byte): Quote {
    if q.inString then
      if q.escape then Quote(true, false)
      else if c == BACKSLASH then Quote(true, true)
      else if c == QUOTE then OUTSIDE
      else q
    else if c == QUOTE then Quote(true, false)
    else q
  }

  /** The lexer state on reaching byte `i` from the start of the line. */
  function Lex(s: Text, i: nat): (q: Quote)
    requires i <= |s|
    ensures q.inString || q == OUTSIDE
  {
    if i == 0 then OUTSIDE else NextQuote(Lex(s, i - 1), s[i - 1])
  }

  predicate IsOpener(c: byte) { c == 0x7B || c == 0x5B }

  predicate IsCloser(c: byte) { c == 0x7D || c == 0x5D }

  predicate OpenAt(s: Text, i: nat) {
    i < |s| && Lex(s, i) == OUTSIDE && IsOpener(s[i])
  }

  function Delta(s: Text, i: nat): int
    requires i < |s|
  {
    if Lex(s, i).inString then 0 else if IsOpener(s[i]) then 1 else if IsCloser(s[i]) then -1 else 0
  }

  /** Openers minus closers, of either kind, outside strings in [from, to). */
  function Depth(s: Text, from: nat, to: nat): int
    requires from <= to <= |s|
  {
    if from == to then 0 else Depth(s, from, to - 1) + Delta(s, to - 1)
  }

  lemma {:induction false} DepthSplits(s: Text, a: nat, b: nat, c: nat)
    requires a <= b <= c <= |s|
    ensures Depth(s, a, c) == Depth(s, a, b) + Depth(s, b, c)
    decreases c
  {
    if b < c {
      DepthSplits(s, a, b, c - 1);
    }
  }

  /** [open, end) is a balanced value: the count first returns to zero at `end`. */
  ghost predicate Closes(s: Text, open: nat, end: nat) {
    && OpenAt(s, open) && open < end <= |s|
    && Depth(s, open, end) == 0
    && forall j :: open < j < end ==> Depth(s, open, j) >= 1
  }

  lemma {:induction false} ClosesOnce(s: Text, open: nat, e: nat, f: nat)
    requires Closes(s, open, e) && Closes(s, open, f)
    ensures e == f
  {
  }

  /** The closing bracket sits outside strings, so the byte after it does too. */
  lemma {:induction false} OutsideAfterClose(s: Text, open: nat, end: nat)
    requires Closes(s, open, end)
    ensures Lex(s, end) == OUTSIDE && IsCloser(s[end - 1])
  {
    assert Depth(s, open, end) == Depth(s, open, end - 1) + Delta(s, end - 1);
    assert open + 1 < end ==> Depth(s, open, end - 1) >= 1;
    assert Depth(s, open, open) == 0;
  }

  // ----- The forward rescan -----

  /** Scanning on from `i` with a depth counter and string skipping, until the counter returns to zero. */
  function Rescan(s: Text, i: nat, depth: nat, q: Quote): (r: Option<nat>)
    requires i <= |s|
    ensures r.Some? ==> i < r.value <= |s|
    decreases |s| - i
  {
    if i == |s| then None
    else if q.inString then Rescan(s, i + 1, depth, NextQuote(q, s[i]))
    else if IsOpener(s[i]) then Rescan(s, i + 1, depth + 1, q)
    else if IsCloser(s[i]) then
      if depth <= 1 then Some(i + 1) else Rescan(s, i + 1, depth - 1, q)
    else Rescan(s, i + 1, depth, NextQuote(q, s[i]))
  }

  function NaiveEnd(s: Text, start: nat): Option<nat>
    requires start <= |s|
  {
    Rescan(s, start, 0, OUTSIDE)
  }

  /** What looking up a position must answer: the rescan's result at an opener outside strings, else nothing. */
  function ValueEndOf(s: Text, start: nat): (r: Option<nat>)
    ensures r.Some? ==> start < r.value <= |s|
  {
    if OpenAt(s, start) then NaiveEnd(s, start) else None
  }

  lemma {:induction false} RescanFollowsDepth(s: Text, open: nat, i: nat)
    requires OpenAt(s, open) && open < i <= |s|
    requires forall j :: open < j <= i ==> Depth(s, open, j) >= 1
    ensures match Rescan(s, i, Depth(s, open, i), Lex(s, i))
            case Some(e) => Closes(s, open, e)
            case None => forall j :: open < j <= |s| ==> Depth(s, open, j) >= 1
    decreases |s| - i
  {
    if i < |s| {
      assert Depth(s, open, i + 1) == Depth(s, open, i) + Delta(s, i);
      if Depth(s, open, i + 1) >= 1 {
        RescanFollowsDepth(s, open, i + 1);
      }
    }
  }

  /** The rescan from an opener outside strings finds exactly its balanced end. */
  lemma {:induction false} NaiveEndCloses(s: Text, open: nat)
    requires OpenAt(s, open)
    ensures match NaiveEnd(s, open)
            case Some(e) => Closes(s, open, e)
            case None => forall e: nat :: !Closes(s, open, e)
  {
    assert Depth(s, open, open + 1) == Depth(s, open, open) + Delta(s, open) == 1;
    RescanFollowsDepth(s, open, open + 1);
  }

  /** Any two balanced values are nested or disjoint, whatever their bracket kinds. */
  lemma {:induction false} NestedOrDisjoint(s: Text, o: nat, e: nat, p: nat, f: nat)
    requires Closes(s, o, e) && Closes(s, p, f) && o < p
    ensures e <= p || f < e
  {
    if p < e {
      DepthSplits(s, o, p, e);
      assert Depth(s, o, p) >= 1;
    }
  }
}

/** The one-pass index of every balanced bracket pair of a line. */
module BracketIndexes {
  import opened Bytes
  import opened QuoteLexer
  import opened Sequences

  type Pair = (nat, nat)

  predicate HasOpen(pairs: seq<Pair>, open: nat) {
    exists k :: 0 <= k < |pairs| && pairs[k].0 == open
  }

  predicate Ascending(pairs: seq<Pair>) {
    forall j, k :: 0 <= j < k < |pairs| ==> pairs[j].0 < pairs[k].0
  }

  predicate OpensNoLater(p: Pair, q: Pair) {
    p.0 <= q.0
  }

  /** The openers still waiting for a closer, outermost first, with the depth each has reached. */
  ghost predicate StackOk(s: Text, i: nat, stack: seq<nat>)
    requires i <= |s|
  {
    && (forall j, k :: 0 <= j < k < |stack| ==> stack[j] < stack[k])
    && (forall k :: 0 <= k < |stack| ==> Waiting(s, i, stack[k], |stack| - k))
  }

  ghost predicate Waiting(s: Text, i: nat, open: nat, depth: int)
    requires i <= |s|
  {
    open < i && OpenAt(s, open) && Depth(s, open, i) == depth && forall j :: open < j <= i ==> Depth(s, open, j) >= 1
  }

  /** Every opener before `i` is either waiting or has its pair, and never both. */
  ghost predicate PairsOk(s: Text, i: nat, stack: seq<nat>, pairs: seq<Pair>) {
    && NoDup(pairs)
    && (forall k :: 0 <= k < |pairs| ==> Closes(s, pairs[k].0, pairs[k].1) && pairs[k].1 <= i)
    && (forall open: nat :: open < i && OpenAt(s, open) ==> open in stack || HasOpen(pairs, open))
    && (forall open :: open in stack ==> !HasOpen(pairs, open))
  }

  lemma {:induction false} WaitingStep(s: Text, i: nat, open: nat, depth: int)
    requires i < |s| && Waiting(s, i, open, depth) && depth + Delta(s, i) >= 1
    ensures Waiting(s, i + 1, open, depth + Delta(s, i))
  {
    assert Depth(s, open, i + 1) == Depth(s, open, i) + Delta(s, i);
  }

  lemma {:induction false} StackUnmoved(s: Text, i: nat, stack: seq<nat>)
    requires i < |s| && StackOk(s, i, stack) && Delta(s, i) == 0
    ensures StackOk(s, i + 1, stack)
  {
    forall k | 0 <= k < |stack| ensures Waiting(s, i + 1, stack[k], |stack| - k) {
      WaitingStep(s, i, stack[k], |stack| - k);
    }
  }

  lemma {:induction false} StackPush(s: Text, i: nat, stack: seq<nat>)
    requires i < |s| && StackOk(s, i, stack) && OpenAt(s, i)
    ensures StackOk(s, i + 1, stack + [i])
  {
    forall k | 0 <= k < |stack| ensures Waiting(s, i + 1, stack[k], |stack| + 1 - k) {
      WaitingStep(s, i, stack[k], |stack| - k);
    }
    assert Depth(s, i, i + 1) == Depth(s, i, i) + Delta(s, i);
  }

  lemma {:induction false} StackPop(s: Text, i: nat, stack: seq<nat>)
    requires i < |s| && StackOk(s, i, stack) && stack != [] && Delta(s, i) == -1
    ensures StackOk(s, i + 1, stack[..|stack| - 1])
    ensures Closes(s, stack[|stack| - 1], i + 1)
  {
    var open := stack[|stack| - 1];
    assert Waiting(s, i, open, 1);
    assert Depth(s, open, i + 1) == Depth(s, open, i) + Delta(s, i);
    forall k | 0 <= k < |stack| - 1 ensures Waiting(s, i + 1, stack[k], |stack| - 1 - k) {
      WaitingStep(s, i, stack[k], |stack| - k);
    }
  }

  lemma {:induction false} PairsGrow(s: Text, i: nat, stack: seq<nat>, pairs: seq<Pair>)
    requires PairsOk(s, i, stack, pairs) && stack != [] && !OpenAt(s, i) && Closes(s, stack[|stack| - 1], i + 1)
    requires forall j, k :: 0 <= j < k < |stack| ==> stack[j] < stack[k]
    ensures PairsOk(s, i + 1, stack[..|stack| - 1], pairs + [(stack[|stack| - 1], i + 1)])
  {
    var open := stack[|stack| - 1];
    var grown, left := pairs + [(open, i + 1)], stack[..|stack| - 1];
    assert stack == left + [open];
    assert open in stack;
    assert grown[|pairs|].0 == open;
    forall o: nat | o < i + 1 && OpenAt(s, o) ensures o in left || HasOpen(grown, o) {
      if HasOpen(pairs, o) {
        var k :| 0 <= k < |pairs| && pairs[k].0 == o;
        assert grown[k].0 == o;
      }
    }
    forall o | o in left ensures !HasOpen(grown, o) {
      assert o in stack && o != open;
    }
  }

  /** `pairs` lists, ascending by opener, exactly the balanced values of `s`. */
  datatype BracketIndex = BracketIndex(pairs: seq<Pair>) {
    ghost predicate Indexes(s: Text) {
      && Ascending(pairs)
      && (forall k :: 0 <= k < |pairs| ==> Closes(s, pairs[k].0, pairs[k].1))
      && (forall open: nat, end: nat :: Closes(s, open, end) ==> HasOpen(pairs, open))
    }

    /** Binary search by opener. */
    method ValueEnd(start: nat, ghost s: Text) returns (r: Option<nat>)
      requires Indexes(s)
      ensures r == ValueEndOf(s, start)
    {
      if OpenAt(s, start) {
        NaiveEndCloses(s, start);
      }
      var lo, hi := 0, |pairs|;
      while lo < hi
        invariant 0 <= lo <= hi <= |pairs|
        invariant forall k :: 0 <= k < |pairs| && pairs[k].0 == start ==> lo <= k < hi
      {
        var mid := (lo + hi) / 2;
        if pairs[mid].0 == start {
          ClosesOnce(s, start, pairs[mid].1, NaiveEnd(s, start).value);
          return Some(pairs[mid].1);
        } else if pairs[mid].0 < start {
          lo := mid + 1;
        } else {
          hi := mid;
        }
      }
      assert !HasOpen(pairs, start);
      r := None;
    }
  }

  /** One left-to-right pass with a stack of openers; closers pop whatever kind is on top, stray ones are dropped. */
  method New(s: Text) returns (index: BracketIndex)
    ensures index.Indexes(s)
  {
    var stack: seq<nat>, pairs: seq<Pair> := [], [];
    var inString, escape := false, false;
    for i := 0 to |s|
      invariant Quote(inString, escape) == Lex(s, i)
      invariant StackOk(s, i, stack)
      invariant PairsOk(s, i, stack, pairs)
    {
      var c := s[i];
      if inString {
        StackUnmoved(s, i, stack);
        if escape {
          escape := false;
        } else if c == BACKSLASH {
          escape := true;
        } else if c == QUOTE {
          inString := false;
        }
      } else if c == QUOTE {
        StackUnmoved(s, i, stack);
        inString := true;
      } else if IsOpener(c) {
        StackPush(s, i, stack);
        PushKeepsPairs(s, i, stack, pairs);
        stack := stack + [i];
      } else if IsCloser(c) {
        if stack != [] {
          StackPop(s, i, stack);
          PairsGrow(s, i, stack, pairs);
          pairs := pairs + [(stack[|stack| - 1], i + 1)];
          stack := stack[..|stack| - 1];
        }
      } else {
        StackUnmoved(s, i, stack);
      }
    }
    IndexComplete(s, stack, pairs);
    index := BracketIndex(SortBy(OpensNoLater, pairs));
  }

  lemma {:induction false} PushKeepsPairs(s: Text, i: nat, stack: seq<nat>, pairs: seq<Pair>)
    requires PairsOk(s, i, stack, pairs) && OpenAt(s, i)
    ensures PairsOk(s, i + 1, stack + [i], pairs)
  {
    forall open | open in stack + [i] ensures !HasOpen(pairs, open) {
      assert open in stack || open == i;
    }
    assert i in stack + [i] && forall open :: open in stack ==> open in stack + [i];
  }

  lemma {:induction false} IndexComplete(s: Text, stack: seq<nat>, pairs: seq<Pair>)
    requires StackOk(s, |s|, stack) && PairsOk(s, |s|, stack, pairs)
    ensures BracketIndex(SortBy(OpensNoLater, pairs)).Indexes(s)
  {
    var sorted := SortBy(OpensNoLater, pairs);
    SortByIsSort(OpensNoLater, pairs);
    SortedOpens(s, sorted);
    forall open: nat, end: nat | Closes(s, open, end) ensures HasOpen(sorted, open) {
      NotWaiting(s, stack, open, end);
      var k :| 0 <= k < |pairs| && pairs[k].0 == open;
      assert pairs[k] in sorted;
    }
  }

  lemma {:induction false} SortedOpens(s: Text, sorted: seq<Pair>)
    requires Sorted(OpensNoLater, sorted) && NoDup(sorted)
    requires forall p :: p in sorted ==> Closes(s, p.0, p.1)
    ensures Ascending(sorted)
  {
    forall j, k | 0 <= j < k < |sorted| ensures sorted[j].0 < sorted[k].0 {
      assert sorted[j] in sorted && sorted[k] in sorted;
      assert OpensNoLater(sorted[j], sorted[k]);
      if sorted[j].0 == sorted[k].0 {
        ClosesOnce(s, sorted[j].0, sorted[j].1, sorted[k].1);
      }
    }
  }

  lemma {:induction false} NotWaiting(s: Text, stack: seq<nat>, open: nat, end: nat)
    requires StackOk(s, |s|, stack) && Closes(s, open, end)
    ensures open !in stack
  {
    forall k | 0 <= k < |stack| ensures stack[k] != open {
      assert Waiting(s, |s|, stack[k], |stack| - k);
    }
  }
}
