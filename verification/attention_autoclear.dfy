/** Auto-clear of stale attention: a marked node whose output later comes in a dense burst is cleared. */
module AttentionAutoclear {
  import opened Bytes

  const GRACE_MS := 3_000
  const BURST_BYTES := 512
  const BURST_GAP_RESET_MS := 10_000

  /** Time in nanoseconds since a fixed start. */
  type Instant = nat

  /** Whole milliseconds from `earlier` to `later`; a clock read out of order gives zero. */
  function MillisSince(later: Instant, earlier: Instant): nat {
    if later < earlier then 0 else (later - earlier) / 1_000_000
  }

  datatype Armed = Armed(markedAt: Instant, bytesAfterGrace: nat, lastByteAt: Instant)

  /** The lifecycle kinds a signal may carry; the ones this module does not tell apart are one value. */
  datatype LifecycleKind = QuestionRequested | PermissionRequested | OtherKind
  datatype SemanticTurnKind = PermissionRequest | CommandConfirmation | TurnFinished

  /** A signal that only the user can answer. */
  predicate NeedsAnswer(kind: Option<LifecycleKind>, semantic: Option<SemanticTurnKind>) {
    || kind == Some(QuestionRequested) || kind == Some(PermissionRequested)
    || semantic == Some(PermissionRequest) || semantic == Some(CommandConfirmation)
  }

  /** What reaches the module: marks, signals, user keystrokes, and output chunks. A chunk carries the time
      it is handed in and the slightly later clock read of its grace check. */
  datatype Event =
    | Marked(node: int, at: Instant)
    | Signal(node: int, kind: Option<LifecycleKind>, semantic: Option<SemanticTurnKind>, at: Instant)
    | Disarmed(node: int)
    | Output(node: int, bytes: nat, now: Instant, check: Instant)

  datatype Counted = Counted(bytes: nat, crossed: bool)

  /** The accumulator alone. */
  function Accumulate(bytes: nat, elapsed: nat, gap: nat, chunk: nat): Counted {
    if elapsed < GRACE_MS then Counted(bytes, false)
    else
      var total := (if gap > BURST_GAP_RESET_MS then 0 else bytes) + chunk;
      Counted(total, total >= BURST_BYTES)
  }

  datatype Outcome = Outcome(armed: map<int, Armed>, cleared: bool)

  function Arm(armed: map<int, Armed>, node: int, at: Instant): map<int, Armed> {
    armed[node := Armed(at, 0, at)]
  }

  /** What one event does. */
  function Handle(armed: map<int, Armed>, e: Event): Outcome {
    match e
    case Marked(node, at) => Outcome(Arm(armed, node, at), false)
    case Signal(node, kind, semantic, at) =>
      Outcome(if NeedsAnswer(kind, semantic) then armed - {node} else Arm(armed, node, at), false)
    case Disarmed(node) => Outcome(armed - {node}, false)
    case Output(node, bytes, now, check) =>
      if node !in armed then Outcome(armed, false)
      else
        var st := armed[node];
        var elapsed, gap := MillisSince(check, st.markedAt), MillisSince(now, st.lastByteAt);
        var c := Accumulate(st.bytesAfterGrace, elapsed, gap, bytes);
        if c.crossed then Outcome(armed - {node}, true)
        else Outcome(armed[node := Armed(st.markedAt, c.bytes, now)], false)
  }

  class AutoClear {
    var armed: map<int, Armed>

    constructor ()
      ensures armed == map[]
    {
      armed := map[];
    }

    method OnMarked(node: int, at: Instant)
      modifies this
      ensures Outcome(armed, false) == Handle(old(armed), Marked(node, at))
    {
      armed := armed[node := Armed(at, 0, at)];
    }

    method OnSignalMarked(node: int, kind: Option<LifecycleKind>, semantic: Option<SemanticTurnKind>, at: Instant)
      modifies this
      ensures Outcome(armed, false) == Handle(old(armed), Signal(node, kind, semantic, at))
    {
      if NeedsAnswer(kind, semantic) {
        Disarm(node);
      } else {
        OnMarked(node, at);
      }
    }

    method Disarm(node: int)
      modifies this
      ensures Outcome(armed, false) == Handle(old(armed), Disarmed(node))
    {
      armed := armed - {node};
    }

    method TakeCrossed(node: int, bytes: nat, now: Instant, check: Instant) returns (crossed: bool)
      modifies this
      ensures Outcome(armed, crossed) == Handle(old(armed), Output(node, bytes, now, check))
    {
      if node !in armed {
        return false;
      }
      var st := armed[node];
      var gap := MillisSince(now, st.lastByteAt);
      var elapsed := MillisSince(check, st.markedAt);
      var total := st.bytesAfterGrace;
      crossed := false;
      if elapsed >= GRACE_MS {
        if gap > BURST_GAP_RESET_MS {
          total := 0;
        }
        total := total + bytes;
        crossed := total >= BURST_BYTES;
      }
      armed := armed[node := Armed(st.markedAt, total, now)];
      if crossed {
        armed := armed - {node};
      }
    }
  }

  // ----- Runs -----

  function After(events: seq<Event>, n: nat): map<int, Armed>
    requires n <= |events|
  {
    if n == 0 then map[] else Handle(After(events, n - 1), events[n - 1]).armed
  }

  /** Event `i` clears its node's attention. */
  predicate Fires(events: seq<Event>, i: nat)
    requires i < |events|
  {
    Handle(After(events, i), events[i]).cleared
  }

  // ----- What a run should do, read off the events alone -----

  /** A mark, or a signal that is neither a question nor a request the user must answer. */
  predicate Arms(e: Event, node: int) {
    e.node == node &&
    (e.Marked? ||
     (e.Signal? && e.kind != Some(QuestionRequested) && e.kind != Some(PermissionRequested)
      && e.semantic != Some(PermissionRequest) && e.semantic != Some(CommandConfirmation)))
  }

  /** A keystroke, or a signal that is one of those. */
  predicate Disarms(e: Event, node: int) {
    e.node == node &&
    (e.Disarmed? ||
     (e.Signal? && (e.kind == Some(QuestionRequested) || e.kind == Some(PermissionRequested)
                    || e.semantic == Some(PermissionRequest) || e.semantic == Some(CommandConfirmation))))
  }

  predicate ChunkOf(e: Event, node: int) {
    e.Output? && e.node == node
  }

  /** Event `a` armed the node, and up to event `n` nothing armed, disarmed or cleared it again. */
  predicate ArmedSince(events: seq<Event>, node: int, a: nat, n: nat)
    requires n <= |events|
  {
    && a < n && Arms(events[a], node)
    && forall i :: a < i < n ==>
      !Arms(events[i], node) && !Disarms(events[i], node) && !(ChunkOf(events[i], node) && Fires(events, i))
  }

  /** When the node's last byte before event `n` came: its last chunk after the mark, or the mark. */
  function LastByte(events: seq<Event>, node: int, a: nat, n: nat): Instant
    requires a < n <= |events| && Arms(events[a], node)
  {
    if n == a + 1 then events[a].at
    else if ChunkOf(events[n - 1], node) then events[n - 1].now
    else LastByte(events, node, a, n - 1)
  }

  /** A chunk whose grace check comes three seconds or more after the mark. */
  predicate PostGrace(events: seq<Event>, node: int, a: nat, i: nat)
    requires a < i < |events| && Arms(events[a], node)
  {
    ChunkOf(events[i], node) && events[i].check >= events[a].at + 3_000_000_000
  }

  /** A post-grace chunk that comes more than ten seconds, in whole milliseconds, after the byte before it. */
  predicate Breaks(events: seq<Event>, node: int, a: nat, i: nat)
    requires a < i < |events| && Arms(events[a], node)
  {
    PostGrace(events, node, a, i) && events[i].now >= LastByte(events, node, a, i) + 10_001_000_000
  }

  /** Chunk `j` is in the burst that is running at event `i`: post-grace, with no break after it. */
  predicate InBurst(events: seq<Event>, node: int, a: nat, j: nat, i: nat)
    requires a < j <= i < |events| && Arms(events[a], node)
  {
    PostGrace(events, node, a, j) && forall k :: j < k <= i ==> !Breaks(events, node, a, k)
  }

  /** The bytes of the burst running at event `i`, over the events after `a` and before `n`. */
  function BurstBytes(events: seq<Event>, node: int, a: nat, i: nat, n: nat): nat
    requires a < n <= i + 1 <= |events| && Arms(events[a], node)
  {
    if n == a + 1 then 0
    else BurstBytes(events, node, a, i, n - 1) + if InBurst(events, node, a, n - 1, i) then events[n - 1].bytes else 0
  }

  /** The bytes counted after the first `n` events: those of the burst then running. */
  function Counting(events: seq<Event>, node: int, a: nat, n: nat): nat
    requires a < n <= |events| && Arms(events[a], node)
  {
    if n == a + 1 then 0 else BurstBytes(events, node, a, n - 1, n)
  }

  lemma {:induction false} BurstSame(events: seq<Event>, node: int, a: nat, i: nat, j: nat, n: nat)
    requires a < n <= i + 1 && i <= j < |events| && Arms(events[a], node)
    requires forall k :: i < k <= j ==> !Breaks(events, node, a, k)
    ensures BurstBytes(events, node, a, i, n) == BurstBytes(events, node, a, j, n)
  {
    if n > a + 1 {
      BurstSame(events, node, a, i, j, n - 1);
    }
  }

  lemma {:induction false} BurstBroken(events: seq<Event>, node: int, a: nat, i: nat, n: nat)
    requires a < n <= i < |events| && Arms(events[a], node) && Breaks(events, node, a, i)
    ensures BurstBytes(events, node, a, i, n) == 0
  {
    if n > a + 1 {
      BurstBroken(events, node, a, i, n - 1);
      assert !InBurst(events, node, a, n - 1, i);
    }
  }

  /** One more event: a break empties the burst, then a post-grace chunk adds its bytes. */
  lemma {:induction false} CountingStep(events: seq<Event>, node: int, a: nat, n: nat)
    requires a < n < |events| && Arms(events[a], node)
    ensures Counting(events, node, a, n + 1) ==
      (if Breaks(events, node, a, n) then 0 else Counting(events, node, a, n))
      + (if PostGrace(events, node, a, n) then events[n].bytes else 0)
  {
    if Breaks(events, node, a, n) {
      BurstBroken(events, node, a, n, n);
    } else if n > a + 1 {
      BurstSame(events, node, a, n - 1, n, n);
    }
    assert InBurst(events, node, a, n, n) == PostGrace(events, node, a, n);
    assert BurstBytes(events, node, a, n, n + 1)
        == BurstBytes(events, node, a, n, n) + if InBurst(events, node, a, n, n) then events[n].bytes else 0;
  }

  /** The node's record, read off the events. */
  function Expected(events: seq<Event>, node: int, a: nat, n: nat): Armed
    requires a < n <= |events| && Arms(events[a], node)
  {
    Armed(events[a].at, Counting(events, node, a, n), LastByte(events, node, a, n))
  }

  /** A node is armed exactly when some event armed it and nothing undid that; its record then holds the
      mark, the bytes of the running burst and the time of the last byte. */
  lemma {:induction false} RecordIs(events: seq<Event>, node: int, n: nat)
    requires n <= |events|
    ensures node in After(events, n) <==> exists a: nat :: ArmedSince(events, node, a, n)
    ensures forall a: nat :: ArmedSince(events, node, a, n) ==> After(events, n)[node] == Expected(events, node, a, n)
  {
    if n > 0 {
      RecordIs(events, node, n - 1);
      var e := events[n - 1];
      if Arms(e, node) {
        assert ArmedSince(events, node, n - 1, n);
        forall a: nat | ArmedSince(events, node, a, n) ensures a == n - 1 {
        }
      } else {
        forall a: nat ensures ArmedSince(events, node, a, n) <==>
          (ArmedSince(events, node, a, n - 1) && !Disarms(e, node) && !(ChunkOf(e, node) && Fires(events, n - 1)))
        {
        }
        if node in After(events, n) {
          var a: nat :| ArmedSince(events, node, a, n - 1);
          assert ArmedSince(events, node, a, n);
        }
        forall a: nat | ArmedSince(events, node, a, n)
          ensures node in After(events, n) && After(events, n)[node] == Expected(events, node, a, n)
        {
          CountingStep(events, node, a, n - 1);
        }
      }
    }
  }

  /** An output chunk clears its node's attention exactly when the node is armed, the chunk is past the
      grace window, and the bytes of the burst it ends reach the threshold. */
  lemma {:induction false} FiresExactly(events: seq<Event>, i: nat)
    requires i < |events| && events[i].Output?
    ensures var node := events[i].node;
            Fires(events, i) <==>
              exists a: nat :: ArmedSince(events, node, a, i) && PostGrace(events, node, a, i)
                && Counting(events, node, a, i + 1) >= 512
  {
    var node := events[i].node;
    RecordIs(events, node, i);
    forall a: nat | ArmedSince(events, node, a, i)
      ensures Fires(events, i) <==> PostGrace(events, node, a, i) && Counting(events, node, a, i + 1) >= 512
    {
      CountingStep(events, node, a, i);
    }
  }

  /** Between two clears of a node it was armed again; and at a clear, no question, permission request or
      keystroke has come since the mark. */
  lemma {:induction false} ClearsOncePerArming(events: seq<Event>, i: nat, j: nat)
    requires i < j < |events| && Fires(events, i) && Fires(events, j) && events[i].node == events[j].node
    ensures var node := events[j].node;
            exists a :: i < a < j && Arms(events[a], node) && forall k :: a < k < j ==> !Disarms(events[k], node)
  {
    var node := events[j].node;
    assert events[i].Output? && events[j].Output?;
    FiresExactly(events, j);
    var a: nat :| ArmedSince(events, node, a, j);
    assert ChunkOf(events[i], node);
  }

  /** A run whose clock reads never go back. */
  ghost predicate Monotone(events: seq<Event>) {
    forall j, k :: 0 <= j < k < |events| && events[j].Output? && events[k].Output? ==>
      events[j].check <= events[k].check
  }

  /** With such clocks a burst is an unbroken suffix of the node's chunks: once a chunk is in it, so is every
      later one. */
  lemma {:induction false} BurstIsSuffix(events: seq<Event>, node: int, a: nat, j: nat, k: nat, i: nat)
    requires Monotone(events) && a < j < k <= i < |events| && Arms(events[a], node)
    requires InBurst(events, node, a, j, i) && ChunkOf(events[k], node)
    ensures InBurst(events, node, a, k, i)
  {
    assert events[j].check <= events[k].check;
  }
}
