/** Serialising async operations per key by chaining promises: the chain behaves as a FIFO queue per key. */
module KeyOpQueue {
  import opened Bytes

  type Key = string

  datatype Phase = Queued | Started | Settled

  /** An operation and the promise it was chained onto, `None` for an already resolved one. */
  datatype Op = Op(key: Key, prev: Option<nat>, phase: Phase, cleaned: bool)

  /** `pending` maps a key to its latest operation, until that has settled and cleaned up after itself. */
  datatype State = State(pending: map<Key, nat>, ops: seq<Op>)

  datatype Action = Enqueue(key: Key) | Start(id: nat) | Settle(id: nat) | Cleanup(id: nat)

  predicate PrevSettled(s: State, id: nat)
    requires id < |s.ops|
  {
    match s.ops[id].prev
    case None => true
    case Some(j) => j < |s.ops| && s.ops[j].phase == Settled
  }

  /** One step; one that is not due changes nothing. */
  function Act(s: State, a: Action): State {
    match a
    case Enqueue(key) =>
      var prev := if key in s.pending then Some(s.pending[key]) else None;
      State(s.pending[key := |s.ops|], s.ops + [Op(key, prev, Queued, false)])
    case Start(id) =>
      if id < |s.ops| && s.ops[id].phase == Queued && PrevSettled(s, id)
      then State(s.pending, s.ops[id := s.ops[id].(phase := Started)]) else s
    case Settle(id) =>
      if id < |s.ops| && s.ops[id].phase == Started
      then State(s.pending, s.ops[id := s.ops[id].(phase := Settled)]) else s
    case Cleanup(id) =>
      if id < |s.ops| && s.ops[id].phase == Settled && !s.ops[id].cleaned then
        var key := s.ops[id].key;
        State(if key in s.pending && s.pending[key] == id then s.pending - {key} else s.pending,
              s.ops[id := s.ops[id].(cleaned := true)])
      else s
  }

  /** The module-level queue. */
  class KeyQueue {
    var pendingByKey: map<Key, nat>
    var ops: seq<Op>

    constructor ()
      ensures Abs() == State(map[], [])
    {
      pendingByKey, ops := map[], [];
    }

    function Abs(): State
      reads this
    {
      State(pendingByKey, ops)
    }

    /** Chain a new operation behind the key's latest one. */
    method EnqueueKeyOp(key: Key) returns (id: nat)
      modifies this
      ensures Abs() == Act(old(Abs()), Enqueue(key)) && id == |old(ops)|
    {
      var prev := None;
      if key in pendingByKey {
        prev := Some(pendingByKey[key]);
      }
      id := |ops|;
      ops := ops + [Op(key, prev, Queued, false)];
      pendingByKey := pendingByKey[key := id];
    }

    /** The tail clean-up: drop the entry unless a later operation has replaced it. */
    method Finally(id: nat)
      requires id < |ops| && ops[id].phase == Settled && !ops[id].cleaned
      modifies this
      ensures Abs() == Act(old(Abs()), Cleanup(id))
    {
      var key := ops[id].key;
      if key in pendingByKey && pendingByKey[key] == id {
        pendingByKey := pendingByKey - {key};
      }
      ops := ops[id := ops[id].(cleaned := true)];
    }
  }

  // ----- Runs -----

  function After(run: seq<Action>, n: nat): State
    requires n <= |run|
  {
    if n == 0 then State(map[], []) else Act(After(run, n - 1), run[n - 1])
  }

  /** Every operation on the key submitted before `id` has settled. */
  ghost predicate EarlierSettled(s: State, key: Key, id: nat)
    requires id <= |s.ops|
  {
    forall j :: 0 <= j < id && s.ops[j].key == key ==> s.ops[j].phase == Settled
  }

  ghost predicate Inv(s: State) {
    && (forall i :: 0 <= i < |s.ops| ==> ChainOk(s, i))
    && (forall i :: 0 <= i < |s.ops| && s.ops[i].phase != Queued ==> EarlierSettled(s, s.ops[i].key, i))
    && (forall key :: key in s.pending ==> IsLatest(s, key, s.pending[key]))
    && (forall key {:trigger key in s.pending} :: key !in s.pending ==> EarlierSettled(s, key, |s.ops|))
  }

  /** The key's latest operation, not yet cleaned up after. */
  ghost predicate IsLatest(s: State, key: Key, id: nat) {
    && id < |s.ops| && s.ops[id].key == key && !s.ops[id].cleaned
    && forall j :: id < j < |s.ops| ==> s.ops[j].key != key
  }

  /** An operation is chained onto the one submitted just before it on its key, or onto nothing when all of
      those have settled. */
  ghost predicate ChainOk(s: State, i: nat)
    requires i < |s.ops|
  {
    match s.ops[i].prev
    case None => EarlierSettled(s, s.ops[i].key, i)
    case Some(j) =>
      j < i && s.ops[j].key == s.ops[i].key && forall k :: j < k < i ==> s.ops[k].key != s.ops[i].key
  }

  lemma {:induction false} ChangeKeepsInv(s: State, id: nat, op: Op)
    requires Inv(s) && id < |s.ops|
    requires op.key == s.ops[id].key && op.prev == s.ops[id].prev
    requires s.ops[id].phase == Settled ==> op.phase == Settled
    requires op.phase != Queued ==> EarlierSettled(s, op.key, id)
    requires op.cleaned ==> s.ops[id].cleaned || op.key !in s.pending || s.pending[op.key] != id
    ensures Inv(State(s.pending, s.ops[id := op]))
  {
    var t := State(s.pending, s.ops[id := op]);
    forall i, key | 0 <= i <= |s.ops| && EarlierSettled(s, key, i) ensures EarlierSettled(t, key, i) {
    }
    forall i | 0 <= i < |s.ops| ensures ChainOk(t, i) {
      assert ChainOk(s, i);
    }
    forall key | key in s.pending ensures IsLatest(t, key, t.pending[key]) {
      assert IsLatest(s, key, s.pending[key]);
    }
    forall key | key !in t.pending ensures EarlierSettled(t, key, |t.ops|) {
      assert key !in s.pending;
      assert EarlierSettled(s, key, |s.ops|);
    }
    forall i | 0 <= i < |s.ops| && t.ops[i].phase != Queued ensures EarlierSettled(t, t.ops[i].key, i) {
      assert EarlierSettled(s, s.ops[i].key, i);
    }
  }

  /** Removing a settled latest operation leaves only settled ones. */
  lemma {:induction false} CleanupKeepsInv(s: State, id: nat)
    requires Inv(s) && id < |s.ops| && s.ops[id].phase == Settled
    ensures var key := s.ops[id].key;
            Inv(State(if key in s.pending && s.pending[key] == id then s.pending - {key} else s.pending, s.ops))
  {
    var key := s.ops[id].key;
    if key in s.pending && s.pending[key] == id {
      var t := State(s.pending - {key}, s.ops);
      assert EarlierSettled(s, key, id) && IsLatest(s, key, id);
      assert EarlierSettled(t, key, |s.ops|);
      forall i | 0 <= i < |s.ops| ensures ChainOk(t, i) {
        assert ChainOk(s, i);
      }
    }
  }

  lemma {:induction false} EnqueueKeepsInv(s: State, key: Key)
    requires Inv(s)
    ensures Inv(Act(s, Enqueue(key)))
  {
    var t := Act(s, Enqueue(key));
    forall i | 0 <= i < |s.ops| ensures ChainOk(t, i) {
      assert ChainOk(s, i);
    }
    assert key in s.pending ==> IsLatest(s, key, s.pending[key]);
    forall k | k !in t.pending ensures EarlierSettled(t, k, |t.ops|) {
      assert k !in s.pending;
      assert EarlierSettled(s, k, |s.ops|);
    }
  }

  /** An operation is due exactly when it has not started and every earlier one on its key has settled: the
      head of the key's FIFO queue, whatever clean-up has done to the map. */
  lemma {:induction false} DueIsHead(s: State, id: nat)
    requires Inv(s) && id < |s.ops| && s.ops[id].phase == Queued
    ensures PrevSettled(s, id) <==> EarlierSettled(s, s.ops[id].key, id)
  {
    assert ChainOk(s, id);
  }

  lemma {:induction false} ActKeepsInv(s: State, a: Action)
    requires Inv(s)
    ensures Inv(Act(s, a))
  {
    match a
    case Enqueue(key) => EnqueueKeepsInv(s, key);
    case Start(id) =>
      if id < |s.ops| && s.ops[id].phase == Queued && PrevSettled(s, id) {
        DueIsHead(s, id);
        ChangeKeepsInv(s, id, s.ops[id].(phase := Started));
      }
    case Settle(id) =>
      if id < |s.ops| && s.ops[id].phase == Started {
        ChangeKeepsInv(s, id, s.ops[id].(phase := Settled));
      }
    case Cleanup(id) =>
      if id < |s.ops| && s.ops[id].phase == Settled && !s.ops[id].cleaned {
        CleanupKeepsInv(s, id);
        var key := s.ops[id].key;
        var pending := if key in s.pending && s.pending[key] == id then s.pending - {key} else s.pending;
        ChangeKeepsInv(State(pending, s.ops), id, s.ops[id].(cleaned := true));
      }
  }

  lemma {:induction false} RunKeepsInv(run: seq<Action>, n: nat)
    requires n <= |run|
    ensures Inv(After(run, n))
  {
    if n > 0 {
      RunKeepsInv(run, n - 1);
      ActKeepsInv(After(run, n - 1), run[n - 1]);
    }
  }

  /** On every run: an operation that has started comes after only settled ones on its key, so at most one
      per key is in flight and none is overtaken. */
  lemma {:induction false} KeysAreSerial(run: seq<Action>, n: nat, i: nat, j: nat)
    requires n <= |run| && i < j < |After(run, n).ops| && After(run, n).ops[i].key == After(run, n).ops[j].key
    ensures After(run, n).ops[j].phase != Queued ==> After(run, n).ops[i].phase == Settled
  {
    RunKeepsInv(run, n);
  }

  // ----- The abstract queue -----

  /** The unsettled operations on a key among the first `n`, in submission order. */
  function Waiting(ops: seq<Op>, key: Key, n: nat): seq<nat>
    requires n <= |ops|
  {
    if n == 0 then []
    else if ops[n - 1].key == key && ops[n - 1].phase != Settled then Waiting(ops, key, n - 1) + [n - 1]
    else Waiting(ops, key, n - 1)
  }

  function Queue(s: State, key: Key): seq<nat> {
    Waiting(s.ops, key, |s.ops|)
  }

  lemma {:induction false} WaitingSame(a: seq<Op>, b: seq<Op>, key: Key, n: nat)
    requires n <= |a| && n <= |b|
    requires forall i :: 0 <= i < n ==>
      ((a[i].key == key && a[i].phase != Settled) <==> (b[i].key == key && b[i].phase != Settled))
    ensures Waiting(a, key, n) == Waiting(b, key, n)
  {
    if n > 0 {
      WaitingSame(a, b, key, n - 1);
    }
  }

  lemma {:induction false} NoneWaiting(ops: seq<Op>, key: Key, n: nat)
    requires n <= |ops| && forall j :: 0 <= j < n && ops[j].key == key ==> ops[j].phase == Settled
    ensures Waiting(ops, key, n) == []
  {
    if n > 0 {
      NoneWaiting(ops, key, n - 1);
    }
  }

  /** With everything before `id` settled, `id` is the head of its queue; settling it removes just the head. */
  lemma {:induction false} HeadWaiting(s: State, id: nat, n: nat)
    requires id < n <= |s.ops| && s.ops[id].phase != Settled && EarlierSettled(s, s.ops[id].key, id)
    ensures var key := s.ops[id].key;
            var settled := s.ops[id := s.ops[id].(phase := Settled)];
            Waiting(s.ops, key, n) == [id] + Waiting(settled, key, n)
  {
    var key := s.ops[id].key;
    var settled := s.ops[id := s.ops[id].(phase := Settled)];
    if n == id + 1 {
      NoneWaiting(s.ops, key, id);
      NoneWaiting(settled, key, id);
    } else {
      HeadWaiting(s, id, n - 1);
    }
  }

  /** The chain refines a FIFO queue per key: submitting appends, settling removes the head, and starting
      and cleaning up change no queue. */
  lemma {:induction false} ChainRefinesQueue(s: State, a: Action, key: Key)
    requires Inv(s)
    ensures var before, after := Queue(s, key), Queue(Act(s, a), key);
            match a
            case Enqueue(k) => after == if k == key then before + [|s.ops|] else before
            case Settle(id) =>
              if id < |s.ops| && s.ops[id].phase == Started && s.ops[id].key == key
              then before == [id] + after else after == before
            case _ => after == before
  {
    var t := Act(s, a);
    match a
    case Enqueue(k) => WaitingSame(s.ops, t.ops, key, |s.ops|);
    case Settle(id) =>
      if id < |s.ops| && s.ops[id].phase == Started && s.ops[id].key == key {
        HeadWaiting(s, id, |s.ops|);
      } else {
        WaitingSame(s.ops, t.ops, key, |s.ops|);
      }
    case _ => WaitingSame(s.ops, t.ops, key, |s.ops|);
  }

  // ----- Getting on -----

  /** The head of a key's queue can always run: once it starts and settles it has left the queue. */
  lemma {:induction false} HeadRuns(run: seq<Action>, n: nat, key: Key)
    requires n <= |run| && Queue(After(run, n), key) != []
    ensures var s, id := After(run, n), Queue(After(run, n), key)[0];
            && id < |s.ops| && s.ops[id].key == key && s.ops[id].phase != Settled
            && Queue(Act(Act(s, Start(id)), Settle(id)), key) == Queue(s, key)[1..]
  {
    var s := After(run, n);
    RunKeepsInv(run, n);
    var id := FirstWaiting(s, key, |s.ops|);
    var started := Act(s, Start(id));
    if s.ops[id].phase == Queued {
      DueIsHead(s, id);
    }
    ActKeepsInv(s, Start(id));
    ChainRefinesQueue(s, Start(id), key);
    ChainRefinesQueue(started, Settle(id), key);
    HeadWaiting(s, id, |s.ops|);
  }

  lemma {:induction false} FirstWaiting(s: State, key: Key, n: nat) returns (id: nat)
    requires n <= |s.ops| && Waiting(s.ops, key, n) != []
    ensures id < n && s.ops[id].key == key && s.ops[id].phase != Settled && EarlierSettled(s, key, id)
    ensures Waiting(s.ops, key, n)[0] == id
  {
    if Waiting(s.ops, key, n - 1) != [] {
      id := FirstWaiting(s, key, n - 1);
    } else {
      id := n - 1;
      NoneWaitingSettled(s.ops, key, n - 1);
    }
  }

  lemma {:induction false} NoneWaitingSettled(ops: seq<Op>, key: Key, n: nat)
    requires n <= |ops| && Waiting(ops, key, n) == []
    ensures forall j :: 0 <= j < n && ops[j].key == key ==> ops[j].phase == Settled
  {
    if n > 0 {
      NoneWaitingSettled(ops, key, n - 1);
    }
  }

  /** The map forgets a key once all of its operations have settled and cleaned up. */
  lemma {:induction false} DrainedKeyForgotten(run: seq<Action>, n: nat, key: Key)
    requires n <= |run|
    requires var ops := After(run, n).ops; forall i :: 0 <= i < |ops| && ops[i].key == key ==> ops[i].cleaned
    ensures key !in After(run, n).pending
  {
    RunKeepsInv(run, n);
  }

  /** Clean-up is done once by each operation, after it has settled. */
  lemma {:induction false} CleanupMarks(s: State, id: nat)
    requires id < |s.ops| && s.ops[id].phase == Settled
    ensures Act(s, Cleanup(id)).ops[id].cleaned
  {
  }
}
