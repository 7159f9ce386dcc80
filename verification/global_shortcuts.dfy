/** Registering global shortcuts across mounts, unmounts and focus changes: what each key's queue leaves in
    the plugin. */
module GlobalShortcuts {
  import opened Bytes
  import KeyOpQueue

  type Key = KeyOpQueue.Key

  /** The asynchronous setup of a mount's focus listener: waiting for the window's focus, for the
      subscription, for the subscription's answer; settled once nothing more will happen. */
  datatype Setup = Asking | Subscribing | Answering | SetUp

  /** One mount of the hook. `unlisten` is its handle on the listener, `listening` whether the listener
      exists, `chained` whether cleanup left the teardown to run when setup settles; `lastFocus` is the last
      focus event it took. */
  datatype Mount = Mount(
    keys: set<Key>, disposed: bool, isFocused: bool, lastFocus: Option<bool>,
    setup: Setup, listening: bool, unlisten: bool, chained: bool)

  datatype Kind = Register | Unregister | FocusGain | FocusLoss

  /** How far an operation at the head of its queue has got: not begun, waiting for `isRegistered`, or
      waiting for the plugin to write. */
  datatype Progress = Queued | Checking | Writing

  datatype KeyOp = KeyOp(kind: Kind, mount: nat, progress: Progress)

  /** `registered` is the plugin's state: for each registered key, the mount whose handler it calls. */
  datatype State = State(mounts: seq<Mount>, queues: map<Key, seq<KeyOp>>, registered: map<Key, nat>) {
    function Queue(key: Key): seq<KeyOp> {
      if key in queues then queues[key] else []
    }

    function Handler(key: Key): Option<nat> {
      if key in registered then Some(registered[key]) else None
    }

    predicate Disposed(m: nat) {
      m < |mounts| && mounts[m].disposed
    }

    /** One more operation at the end of the queue of each of `keys`. */
    function Submit(keys: set<Key>, op: KeyOp): State {
      State(mounts, map key | key in queues.Keys + keys :: Queue(key) + (if key in keys then [op] else []), registered)
    }

    function SetMount(m: nat, mount: Mount): State
      requires m < |mounts|
    {
      State(mounts[m := mount], queues, registered)
    }
  }

  const INITIAL := State([], map[], map[])

  datatype Action =
    | MountHook(keys: set<Key>)
    | Unmount(m: nat)
    | FocusEvent(m: nat, focused: bool)
    | FocusAnswer(m: nat, focused: bool)
    | Subscribe(m: nat)
    | SubscribeAnswer(m: nat)
    | SetupFails(m: nat)
    | Teardown(m: nat)
    | Advance(key: Key)

  predicate AllDisposed(s: State) {
    forall m :: 0 <= m < |s.mounts| ==> s.mounts[m].disposed
  }

  // ----- One operation at the head of its queue -----

  datatype Progressed = Progressed(rest: seq<KeyOp>, handler: Option<nat>)

  /** The head's next step: `handler` is the key's registration, and the head leaves the queue when done. */
  function HeadStep(s: State, queue: seq<KeyOp>, handler: Option<nat>): Progressed
    requires queue != []
  {
    var op, rest := queue[0], queue[1..];
    match op.kind
    case Register =>
      if op.progress == Writing then Progressed(rest, Some(op.mount))
      else if s.Disposed(op.mount) then Progressed(rest, handler)
      else if op.progress == Queued then Progressed([op.(progress := Checking)] + rest, handler)
      else if handler.Some? then Progressed(rest, handler)
      else Progressed([op.(progress := Writing)] + rest, handler)
    case FocusGain =>
      if op.progress == Writing then Progressed(rest, Some(op.mount))
      else if op.progress == Queued then Progressed([op.(progress := Checking)] + rest, handler)
      else if handler.Some? then Progressed(rest, handler)
      else Progressed([op.(progress := Writing)] + rest, handler)
    case FocusLoss =>
      if op.progress == Writing then Progressed(rest, None)
      else Progressed([op.(progress := Writing)] + rest, handler)
    case Unregister =>
      if op.progress == Writing then Progressed(rest, None)
      else if !s.Disposed(op.mount) then Progressed(rest, handler)
      else Progressed([op.(progress := Writing)] + rest, handler)
  }

  function SetHandler(registered: map<Key, nat>, key: Key, handler: Option<nat>): map<Key, nat> {
    if handler.Some? then registered[key := handler.value] else registered - {key}
  }

  /** A mount after its cleanup: the listener is torn down now, or once setup has settled. */
  function Gone(mount: Mount): Mount {
    mount.(
      disposed := true,
      listening := mount.listening && !mount.unlisten,
      unlisten := false,
      chained := !mount.unlisten)
  }

  /** A mount after a focus event. */
  function Told(mount: Mount, focused: bool): Mount {
    mount.(isFocused := focused, lastFocus := Some(focused))
  }

  /** One step; one that is not due changes nothing. A mount comes only after every earlier one's cleanup. */
  function Act(s: State, a: Action): State {
    match a
    case MountHook(keys) =>
      if !AllDisposed(s) then s
      else
        State(s.mounts + [Mount(keys, false, true, None, Asking, false, false, false)], s.queues, s.registered)
          .Submit(keys, KeyOp(Register, |s.mounts|, Queued))
    case Unmount(m) =>
      if m >= |s.mounts| || s.mounts[m].disposed then s
      else
        var mount := s.mounts[m];
        s.SetMount(m, Gone(mount)).Submit(mount.keys, KeyOp(Unregister, m, Queued))
    case FocusEvent(m, focused) =>
      if m >= |s.mounts| || !s.mounts[m].listening || s.mounts[m].disposed then s
      else
        s.SetMount(m, Told(s.mounts[m], focused))
          .Submit(s.mounts[m].keys, KeyOp(if focused then FocusGain else FocusLoss, m, Queued))
    case FocusAnswer(m, focused) =>
      if m >= |s.mounts| || s.mounts[m].setup != Asking then s
      else if s.mounts[m].disposed then s.SetMount(m, s.mounts[m].(setup := SetUp))
      else s.SetMount(m, s.mounts[m].(isFocused := focused, setup := Subscribing))
    case Subscribe(m) =>
      if m >= |s.mounts| || s.mounts[m].setup != Subscribing then s
      else s.SetMount(m, s.mounts[m].(listening := true, setup := Answering))
    case SubscribeAnswer(m) =>
      if m >= |s.mounts| || s.mounts[m].setup != Answering then s
      else s.SetMount(m, s.mounts[m].(unlisten := true, setup := SetUp))
    case SetupFails(m) =>
      if m >= |s.mounts| || (s.mounts[m].setup != Asking && s.mounts[m].setup != Subscribing) then s
      else s.SetMount(m, s.mounts[m].(setup := SetUp))
    case Teardown(m) =>
      if m >= |s.mounts| || s.mounts[m].setup != SetUp || !s.mounts[m].chained then s
      else
        var mount := s.mounts[m];
        s.SetMount(m, mount.(listening := mount.listening && !mount.unlisten, unlisten := false, chained := false))
    case Advance(key) =>
      if s.Queue(key) == [] then s
      else
        var r := HeadStep(s, s.Queue(key), s.Handler(key));
        State(s.mounts, s.queues[key := r.rest], SetHandler(s.registered, key, r.handler))
  }

  function After(run: seq<Action>, n: nat): State
    requires n <= |run|
  {
    if n == 0 then INITIAL else Act(After(run, n - 1), run[n - 1])
  }

  // ----- What a queue will leave registered -----

  /** The registration one operation leaves, run to its end with the mounts as they are now. */
  function Effect(s: State, op: KeyOp, handler: Option<nat>): Option<nat> {
    match op.kind
    case Register =>
      if op.progress == Writing || (handler == None && !s.Disposed(op.mount)) then Some(op.mount) else handler
    case FocusGain => if op.progress == Writing || handler == None then Some(op.mount) else handler
    case FocusLoss => None
    case Unregister => if op.progress == Writing || s.Disposed(op.mount) then None else handler
  }

  /** The registration the first `n` operations leave. */
  function Outcome(s: State, queue: seq<KeyOp>, n: nat, handler: Option<nat>): Option<nat>
    requires n <= |queue|
  {
    if n == 0 then handler else Effect(s, queue[n - 1], Outcome(s, queue, n - 1, handler))
  }

  function Eventually(s: State, key: Key): Option<nat> {
    Outcome(s, s.Queue(key), |s.Queue(key)|, s.Handler(key))
  }

  /** What should end up registered: the live mount, if it binds the key and has not last been told the
      window lost focus. */
  function Intended(s: State, key: Key): Option<nat> {
    if s.mounts == [] then None
    else
      var m := |s.mounts| - 1;
      var mount := s.mounts[m];
      if !mount.disposed && key in mount.keys && mount.lastFocus != Some(false) then Some(m) else None
  }

  /** Only the last mount can be live; queued operations are of known mounts that bind the key, and an
      unregister is of a disposed one. */
  ghost predicate Ordered(s: State) {
    && (forall m :: 0 <= m < |s.mounts| - 1 ==> s.mounts[m].disposed)
    && (forall key, i :: 0 <= i < |s.Queue(key)| ==> OpOk(s, key, s.Queue(key)[i]))
  }

  predicate OpOk(s: State, key: Key, op: KeyOp) {
    && op.mount < |s.mounts| && key in s.mounts[op.mount].keys
    && (op.kind == Unregister ==> s.mounts[op.mount].disposed)
  }

  ghost predicate Inv(s: State) {
    Ordered(s) && forall key {:trigger Intended(s, key)} :: Eventually(s, key) == Intended(s, key)
  }

  lemma {:induction false} OutcomeSame(s: State, t: State, a: seq<KeyOp>, b: seq<KeyOp>, n: nat, handler: Option<nat>)
    requires n <= |a| && n <= |b|
    requires forall i :: 0 <= i < n ==> a[i] == b[i] && (s.Disposed(a[i].mount) <==> t.Disposed(a[i].mount))
    ensures Outcome(s, a, n, handler) == Outcome(t, b, n, handler)
  {
    if n > 0 {
      OutcomeSame(s, t, a, b, n - 1, handler);
    }
  }

  /** Running the head first and then the rest is running the queue. */
  lemma {:induction false} OutcomeHead(s: State, queue: seq<KeyOp>, n: nat, handler: Option<nat>)
    requires 0 < n <= |queue|
    ensures Outcome(s, queue, n, handler) == Outcome(s, queue[1..], n - 1, Effect(s, queue[0], handler))
  {
    if n > 1 {
      OutcomeHead(s, queue, n - 1, handler);
    }
  }

  /** A step of the head leaves what the head will do, or has done it. */
  lemma {:induction false} HeadStepEffect(s: State, queue: seq<KeyOp>, handler: Option<nat>)
    requires queue != []
    ensures var r := HeadStep(s, queue, handler);
            if |r.rest| == |queue| then
              r.rest[1..] == queue[1..] && Effect(s, r.rest[0], r.handler) == Effect(s, queue[0], handler)
            else
              r.rest == queue[1..] && r.handler == Effect(s, queue[0], handler)
  {
  }

  /** So it changes nothing about what its key's queue will leave registered. */
  lemma {:induction false} HeadStepKeepsOutcome(s: State, queue: seq<KeyOp>, handler: Option<nat>)
    requires queue != []
    ensures var r := HeadStep(s, queue, handler);
            Outcome(s, r.rest, |r.rest|, r.handler) == Outcome(s, queue, |queue|, handler)
  {
    var r := HeadStep(s, queue, handler);
    HeadStepEffect(s, queue, handler);
    OutcomeHead(s, queue, |queue|, handler);
    if |r.rest| == |queue| {
      OutcomeHead(s, r.rest, |r.rest|, r.handler);
    }
  }

  // ----- Every step keeps it -----

  /** An operation submitted on `keys` runs last on each of them and nowhere else. */
  lemma {:induction false} SubmitEventually(s: State, keys: set<Key>, op: KeyOp, key: Key)
    ensures var t := s.Submit(keys, op);
            && t.Queue(key) == s.Queue(key) + (if key in keys then [op] else [])
            && Eventually(t, key) == if key in keys then Effect(s, op, Eventually(s, key)) else Eventually(s, key)
  {
    var t := s.Submit(keys, op);
    SubmitQueue(s, keys, op, key);
    OutcomeSame(s, t, s.Queue(key), t.Queue(key), |s.Queue(key)|, s.Handler(key));
  }

  lemma {:induction false} SubmitQueue(s: State, keys: set<Key>, op: KeyOp, key: Key)
    ensures s.Submit(keys, op).Queue(key) == s.Queue(key) + (if key in keys then [op] else [])
  {
  }

  /** Changing one mount's record keeps what a key's queue will leave, unless that mount becomes disposed
      with operations on the key. */
  lemma {:induction false} SetMountEventually(s: State, m: nat, mount: Mount, key: Key)
    requires m < |s.mounts| && Ordered(s)
    requires mount.disposed == s.mounts[m].disposed || key !in s.mounts[m].keys
    ensures Eventually(s.SetMount(m, mount), key) == Eventually(s, key)
  {
    var t := s.SetMount(m, mount);
    forall i | 0 <= i < |s.Queue(key)|
      ensures s.Disposed(s.Queue(key)[i].mount) <==> t.Disposed(s.Queue(key)[i].mount)
    {
      assert OpOk(s, key, s.Queue(key)[i]);
    }
    OutcomeSame(s, t, s.Queue(key), t.Queue(key), |s.Queue(key)|, s.Handler(key));
  }

  lemma {:induction false} SetMountOrdered(s: State, m: nat, mount: Mount)
    requires m < |s.mounts| && Ordered(s)
    requires mount.keys == s.mounts[m].keys && (s.mounts[m].disposed ==> mount.disposed)
    ensures Ordered(s.SetMount(m, mount))
  {
    var t := s.SetMount(m, mount);
    forall key, i | 0 <= i < |t.Queue(key)| ensures OpOk(t, key, t.Queue(key)[i]) {
      assert OpOk(s, key, s.Queue(key)[i]);
    }
  }

  lemma {:induction false} SubmitOrdered(s: State, keys: set<Key>, op: KeyOp)
    requires Ordered(s) && forall key :: key in keys ==> OpOk(s, key, op)
    ensures Ordered(s.Submit(keys, op))
  {
    var t := s.Submit(keys, op);
    forall key, i | 0 <= i < |t.Queue(key)| ensures OpOk(t, key, t.Queue(key)[i]) {
      SubmitEventually(s, keys, op, key);
      if i < |s.Queue(key)| {
        assert OpOk(s, key, s.Queue(key)[i]);
      }
    }
  }

  /** A record change that touches neither bindings, disposal nor the last focus event is neutral. */
  lemma {:induction false} SetMountKeepsInv(s: State, m: nat, mount: Mount)
    requires m < |s.mounts| && Inv(s)
    requires mount.keys == s.mounts[m].keys && mount.disposed == s.mounts[m].disposed
    requires mount.lastFocus == s.mounts[m].lastFocus
    ensures Inv(s.SetMount(m, mount))
  {
    var t := s.SetMount(m, mount);
    SetMountOrdered(s, m, mount);
    forall key ensures Eventually(t, key) == Intended(t, key) {
      assert Eventually(s, key) == Intended(s, key);
      SetMountKey(s, m, mount, key);
    }
  }

  lemma {:induction false} SetMountKey(s: State, m: nat, mount: Mount, key: Key)
    requires m < |s.mounts| && Ordered(s)
    requires mount.keys == s.mounts[m].keys && mount.disposed == s.mounts[m].disposed
    requires mount.lastFocus == s.mounts[m].lastFocus
    ensures Eventually(s.SetMount(m, mount), key) == Eventually(s, key)
    ensures Intended(s.SetMount(m, mount), key) == Intended(s, key)
  {
    SetMountEventually(s, m, mount, key);
  }

  lemma {:induction false} MountKeepsInv(s: State, keys: set<Key>)
    requires Inv(s)
    ensures Inv(Act(s, MountHook(keys)))
  {
    if AllDisposed(s) {
      var m := |s.mounts|;
      var op := KeyOp(Register, m, Queued);
      var u := State(s.mounts + [Mount(keys, false, true, None, Asking, false, false, false)], s.queues, s.registered);
      forall key, i | 0 <= i < |u.Queue(key)| ensures OpOk(u, key, u.Queue(key)[i]) {
        assert OpOk(s, key, s.Queue(key)[i]);
      }
      SubmitOrdered(u, keys, op);
      var t := u.Submit(keys, op);
      forall key ensures Eventually(t, key) == Intended(t, key) {
        NewMountEventually(s, u, key);
        SubmitEventually(u, keys, op, key);
        assert Intended(s, key) == None;
      }
    }
  }

  lemma {:induction false} NewMountEventually(s: State, u: State, key: Key)
    requires Ordered(s) && |u.mounts| == |s.mounts| + 1 && u.mounts[..|s.mounts|] == s.mounts
    requires u.queues == s.queues && u.registered == s.registered
    ensures Eventually(u, key) == Eventually(s, key)
  {
    forall i | 0 <= i < |s.Queue(key)|
      ensures s.Disposed(s.Queue(key)[i].mount) <==> u.Disposed(s.Queue(key)[i].mount)
    {
      assert OpOk(s, key, s.Queue(key)[i]);
      assert u.mounts[..|s.mounts|][s.Queue(key)[i].mount] == u.mounts[s.Queue(key)[i].mount];
    }
    OutcomeSame(s, u, s.Queue(key), u.Queue(key), |s.Queue(key)|, s.Handler(key));
  }

  lemma {:induction false} UnmountKeepsInv(s: State, m: nat)
    requires Inv(s)
    ensures Inv(Act(s, Unmount(m)))
  {
    if m < |s.mounts| && !s.mounts[m].disposed {
      var mount := s.mounts[m];
      var u, op := s.SetMount(m, Gone(mount)), KeyOp(Unregister, m, Queued);
      SetMountOrdered(s, m, Gone(mount));
      SubmitOrdered(u, mount.keys, op);
      forall key ensures Eventually(u.Submit(mount.keys, op), key) == Intended(u.Submit(mount.keys, op), key) {
        UnmountKey(s, m, key);
      }
    }
  }

  lemma {:induction false} UnmountKey(s: State, m: nat, key: Key)
    requires Ordered(s) && m < |s.mounts| && !s.mounts[m].disposed && Eventually(s, key) == Intended(s, key)
    ensures var t := s.SetMount(m, Gone(s.mounts[m])).Submit(s.mounts[m].keys, KeyOp(Unregister, m, Queued));
            Eventually(t, key) == Intended(t, key)
  {
    var mount := s.mounts[m];
    var u := s.SetMount(m, Gone(mount));
    SubmitEventually(u, mount.keys, KeyOp(Unregister, m, Queued), key);
    if key !in mount.keys {
      SetMountEventually(s, m, Gone(mount), key);
    }
  }

  lemma {:induction false} FocusKeepsInv(s: State, m: nat, focused: bool)
    requires Inv(s)
    ensures Inv(Act(s, FocusEvent(m, focused)))
  {
    if m < |s.mounts| && s.mounts[m].listening && !s.mounts[m].disposed {
      var mount := s.mounts[m];
      var u, op := s.SetMount(m, Told(mount, focused)), KeyOp(if focused then FocusGain else FocusLoss, m, Queued);
      SetMountOrdered(s, m, Told(mount, focused));
      SubmitOrdered(u, mount.keys, op);
      forall key ensures Eventually(u.Submit(mount.keys, op), key) == Intended(u.Submit(mount.keys, op), key) {
        FocusKey(s, m, focused, key);
      }
    }
  }

  lemma {:induction false} FocusKey(s: State, m: nat, focused: bool, key: Key)
    requires Ordered(s) && m < |s.mounts| && !s.mounts[m].disposed && Eventually(s, key) == Intended(s, key)
    ensures var op := KeyOp(if focused then FocusGain else FocusLoss, m, Queued);
            var t := s.SetMount(m, Told(s.mounts[m], focused)).Submit(s.mounts[m].keys, op);
            Eventually(t, key) == Intended(t, key)
  {
    var mount := s.mounts[m];
    var op := KeyOp(if focused then FocusGain else FocusLoss, m, Queued);
    SetMountEventually(s, m, Told(mount, focused), key);
    SubmitEventually(s.SetMount(m, Told(mount, focused)), mount.keys, op, key);
  }

  lemma {:induction false} AdvanceKeepsInv(s: State, key: Key)
    requires Inv(s)
    ensures Inv(Act(s, Advance(key)))
  {
    if s.Queue(key) != [] {
      AdvanceOrdered(s, key);
      forall k ensures Eventually(Act(s, Advance(key)), k) == Intended(Act(s, Advance(key)), k) {
        assert Eventually(s, k) == Intended(s, k);
        AdvanceKey(s, key, k);
      }
    }
  }

  lemma {:induction false} AdvanceKey(s: State, key: Key, k: Key)
    requires s.Queue(key) != [] && Eventually(s, k) == Intended(s, k)
    ensures Eventually(Act(s, Advance(key)), k) == Intended(Act(s, Advance(key)), k)
  {
    AdvanceEventually(s, key, k);
  }

  lemma {:induction false} AdvanceOrdered(s: State, key: Key)
    requires Ordered(s) && s.Queue(key) != []
    ensures Ordered(Act(s, Advance(key)))
  {
    HeadStepOps(s, key, s.Queue(key), s.Handler(key));
    var t := Act(s, Advance(key));
    forall k, i | 0 <= i < |t.Queue(k)| ensures OpOk(t, k, t.Queue(k)[i]) {
      if k != key {
        assert OpOk(s, k, s.Queue(k)[i]);
      }
    }
  }

  lemma {:induction false} AdvanceEventually(s: State, key: Key, k: Key)
    requires s.Queue(key) != []
    ensures Eventually(Act(s, Advance(key)), k) == Eventually(s, k)
  {
    var r, t := HeadStep(s, s.Queue(key), s.Handler(key)), Act(s, Advance(key));
    if k == key {
      HeadStepKeepsOutcome(s, s.Queue(key), s.Handler(key));
      OutcomeSame(s, t, r.rest, t.Queue(key), |r.rest|, r.handler);
    } else {
      OutcomeSame(s, t, s.Queue(k), t.Queue(k), |s.Queue(k)|, s.Handler(k));
    }
  }

  lemma {:induction false} HeadStepOps(s: State, key: Key, queue: seq<KeyOp>, handler: Option<nat>)
    requires queue != [] && forall i :: 0 <= i < |queue| ==> OpOk(s, key, queue[i])
    ensures var rest := HeadStep(s, queue, handler).rest; forall i :: 0 <= i < |rest| ==> OpOk(s, key, rest[i])
  {
    var rest := HeadStep(s, queue, handler).rest;
    assert OpOk(s, key, queue[0]);
    forall i | 0 <= i < |rest| ensures OpOk(s, key, rest[i]) {
      if |rest| < |queue| {
        assert rest[i] == queue[i + 1];
      } else if i > 0 {
        assert rest[i] == queue[i];
      }
    }
  }

  lemma {:induction false} ActKeepsInv(s: State, a: Action)
    requires Inv(s)
    ensures Inv(Act(s, a))
  {
    match a
    case MountHook(keys) => MountKeepsInv(s, keys);
    case Unmount(m) => UnmountKeepsInv(s, m);
    case FocusEvent(m, focused) => FocusKeepsInv(s, m, focused);
    case Advance(key) => AdvanceKeepsInv(s, key);
    case _ => SetupKeepsInv(s, a);
  }

  lemma {:induction false} SetupKeepsInv(s: State, a: Action)
    requires Inv(s) && !a.MountHook? && !a.Unmount? && !a.FocusEvent? && !a.Advance?
    ensures Inv(Act(s, a))
  {
    if a.m < |s.mounts| && Act(s, a) != s {
      SetMountKeepsInv(s, a.m, Act(s, a).mounts[a.m]);
      assert Act(s, a) == s.SetMount(a.m, Act(s, a).mounts[a.m]);
    }
  }

  lemma {:induction false} RunKeepsInv(run: seq<Action>, n: nat)
    requires n <= |run|
    ensures Inv(After(run, n))
  {
    if n > 0 {
      RunKeepsInv(run, n - 1);
      ActKeepsInv(After(run, n - 1), run[n - 1]);
    }
  }

  /** Whenever a key's queue has drained, exactly the intended handler is registered: the live mount's, if
      it binds the key and was not last told of a focus loss; otherwise none. */
  lemma {:induction false} DrainedIsIntended(run: seq<Action>, n: nat, key: Key)
    requires n <= |run| && After(run, n).Queue(key) == []
    ensures After(run, n).Handler(key) == Intended(After(run, n), key)
  {
    RunKeepsInv(run, n);
    assert Eventually(After(run, n), key) == Intended(After(run, n), key);
  }

  // ----- Draining -----

  /** Steps an operation may still take. */
  function Left(op: KeyOp): nat {
    match op.progress
    case Queued => 3
    case Checking => 2
    case Writing => 1
  }

  function Work(queue: seq<KeyOp>, n: nat): nat
    requires n <= |queue|
  {
    if n == 0 then 0 else Work(queue, n - 1) + Left(queue[n - 1])
  }

  lemma {:induction false} WorkHead(queue: seq<KeyOp>, n: nat)
    requires 0 < n <= |queue|
    ensures Work(queue, n) == Left(queue[0]) + Work(queue[1..], n - 1)
  {
    if n > 1 {
      WorkHead(queue, n - 1);
    }
  }

  /** Every step of a waiting key brings its queue closer to drained, whatever the plugin's state. */
  lemma {:induction false} AdvanceDrains(s: State, key: Key)
    requires s.Queue(key) != []
    ensures var t := Act(s, Advance(key)); Work(t.Queue(key), |t.Queue(key)|) < Work(s.Queue(key), |s.Queue(key)|)
  {
    HeadStepDrains(s, s.Queue(key), s.Handler(key));
  }

  lemma {:induction false} AfterPrefix(run: seq<Action>, more: seq<Action>, n: nat)
    requires n <= |run|
    ensures After(run + more, n) == After(run, n)
  {
    if n > 0 {
      AfterPrefix(run, more, n - 1);
    }
  }

  /** From every reachable state, steps of one key alone drain its queue, and leave registered exactly what
      the mounts intended before those steps. */
  lemma {:induction false} DrainsToIntended(run: seq<Action>, key: Key) returns (more: seq<Action>)
    ensures forall i :: 0 <= i < |more| ==> more[i] == Advance(key)
    ensures var s, t := After(run, |run|), After(run + more, |run + more|);
            t.mounts == s.mounts && t.Queue(key) == [] && t.Handler(key) == Intended(s, key)
    decreases var s := After(run, |run|); Work(s.Queue(key), |s.Queue(key)|)
  {
    var s := After(run, |run|);
    if s.Queue(key) == [] {
      DrainedIsIntended(run, |run|, key);
      assert run + [] == run;
      return [];
    }
    var next := run + [Advance(key)];
    AfterPrefix(run, [Advance(key)], |run|);
    assert After(next, |next|) == Act(s, Advance(key));
    AdvanceDrains(s, key);
    var rest := DrainsToIntended(next, key);
    more := [Advance(key)] + rest;
    assert run + more == next + rest;
  }

  lemma {:induction false} HeadStepDrains(s: State, queue: seq<KeyOp>, handler: Option<nat>)
    requires queue != []
    ensures var rest := HeadStep(s, queue, handler).rest; Work(rest, |rest|) < Work(queue, |queue|)
  {
    var rest := HeadStep(s, queue, handler).rest;
    WorkHead(queue, |queue|);
    if |rest| == |queue| {
      WorkHead(rest, |rest|);
      assert rest[1..] == queue[1..];
    }
  }

  // ----- The focus listener -----

  /** A listener that outlives its mount is about to be torn down: setup has not settled, or has left the
      handle cleanup's chained teardown takes. */
  predicate ListenerOk(mount: Mount) {
    && (mount.unlisten ==> mount.listening && mount.setup == SetUp)
    && (mount.listening ==> mount.unlisten || mount.setup == Answering)
    && (mount.setup == Answering ==> mount.listening)
    && (mount.disposed && (mount.listening || mount.setup != SetUp) ==> mount.chained)
    && (mount.lastFocus.Some? ==> mount.isFocused == mount.lastFocus.value && mount.setup != Asking)
  }

  lemma {:induction false} ActKeepsListeners(s: State, a: Action)
    requires forall m :: 0 <= m < |s.mounts| ==> ListenerOk(s.mounts[m])
    ensures forall m :: 0 <= m < |Act(s, a).mounts| ==> ListenerOk(Act(s, a).mounts[m])
  {
    var t := Act(s, a);
    forall m | 0 <= m < |t.mounts| ensures ListenerOk(t.mounts[m]) {
      if m < |s.mounts| {
        assert ListenerOk(s.mounts[m]);
      }
    }
  }

  lemma {:induction false} RunKeepsListeners(run: seq<Action>, n: nat)
    requires n <= |run|
    ensures forall m :: 0 <= m < |After(run, n).mounts| ==> ListenerOk(After(run, n).mounts[m])
  {
    if n > 0 {
      RunKeepsListeners(run, n - 1);
      ActKeepsListeners(After(run, n - 1), run[n - 1]);
    }
  }

  /** No listener leaks: once a disposed mount's setup has settled and its chained teardown has run, its
      listener is gone; and a mount last told of a focus loss acts on no key press, even before its key is
      unregistered. */
  lemma {:induction false} NoListenerLeaks(run: seq<Action>, n: nat, m: nat)
    requires n <= |run| && m < |After(run, n).mounts|
    ensures var mount := After(run, n).mounts[m];
            && (mount.disposed && mount.setup == SetUp && !mount.chained ==> !mount.listening)
            && (mount.lastFocus == Some(false) ==> !Triggers(mount, true))
  {
    RunKeepsListeners(run, n);
  }

  /** Whether the handler of a mount acts on a shortcut event. */
  predicate Triggers(mount: Mount, pressed: bool) {
    pressed && mount.isFocused
  }
}
