/** What a run asks of the global shortcuts, read off its actions alone, and that the plugin ends up so. */
module ShortcutIntent {
  import opened Bytes
  import opened GlobalShortcuts

  /** How far the latest mount's focus setup has got. */
  datatype Stage = Waiting | Answered | Listening | Failed

  /** What the actions so far say: how many mounts there were; and of the latest, whether it still stands, the
      keys it was given, its focus setup, the last focus event it heard, and whether the window has focus. */
  datatype Told = Told(mounts: nat, stands: bool, keys: set<Key>, stage: Stage, heard: Option<bool>, focused: bool)

  const NOTHING := Told(0, false, {}, Waiting, None, true)

  /** An action concerns the latest mount while it stands. */
  predicate Concerns(t: Told, m: nat) {
    t.stands && m + 1 == t.mounts
  }

  function Hear(t: Told, a: Action): Told {
    match a
    case MountHook(keys) => if t.stands then t else Told(t.mounts + 1, true, keys, Waiting, None, true)
    case Unmount(m) => if Concerns(t, m) then t.(stands := false) else t
    case FocusAnswer(m, focused) =>
      if Concerns(t, m) && t.stage == Waiting then t.(stage := Answered, focused := focused) else t
    case Subscribe(m) => if Concerns(t, m) && t.stage == Answered then t.(stage := Listening) else t
    case SetupFails(m) =>
      if Concerns(t, m) && (t.stage == Waiting || t.stage == Answered) then t.(stage := Failed) else t
    case FocusEvent(m, focused) =>
      if Concerns(t, m) && t.stage == Listening then t.(heard := Some(focused), focused := focused) else t
    case _ => t
  }

  function Heard(run: seq<Action>, n: nat): Told
    requires n <= |run|
  {
    if n == 0 then NOTHING else Hear(Heard(run, n - 1), run[n - 1])
  }

  /** The handler a key should have: the standing mount's, if it was given the key and did not last hear that
      the window lost focus. */
  function Wanted(t: Told, key: Key): Option<nat> {
    if t.stands && t.mounts > 0 && key in t.keys && t.heard != Some(false) then Some(t.mounts - 1) else None
  }

  predicate SameStage(stage: Stage, mount: Mount) {
    && (stage == Waiting <==> mount.setup == Asking)
    && (stage == Answered <==> mount.setup == Subscribing)
    && (stage == Listening <==> mount.listening)
  }

  predicate SameMount(t: Told, mount: Mount) {
    && !mount.disposed && mount.keys == t.keys && mount.lastFocus == t.heard && mount.isFocused == t.focused
    && !mount.chained
    && SameStage(t.stage, mount) && (mount.listening ==> mount.setup == Answering || mount.setup == SetUp)
  }

  ghost predicate Agrees(t: Told, s: State) {
    && |s.mounts| == t.mounts
    && (forall m :: 0 <= m < |s.mounts| - 1 ==> s.mounts[m].disposed)
    && (t.mounts == 0 ==> !t.stands)
    && (t.mounts > 0 ==>
          if t.stands then SameMount(t, s.mounts[t.mounts - 1]) else s.mounts[t.mounts - 1].disposed)
  }

  lemma {:induction false} LatestAgrees(t: Told, s: State, a: Action)
    requires !a.MountHook? && !a.Advance? && Concerns(t, a.m) && |s.mounts| == t.mounts && SameMount(t, s.mounts[a.m])
    ensures var mount := Act(s, a).mounts[a.m];
            if a.Unmount? then !Hear(t, a).stands && mount.disposed
            else Hear(t, a).stands && SameMount(Hear(t, a), mount)
  {
  }

  lemma {:induction false} StepAgrees(t: Told, s: State, a: Action)
    requires Agrees(t, s)
    ensures Agrees(Hear(t, a), Act(s, a))
  {
    match a
    case MountHook(_) => assert AllDisposed(s) <==> !t.stands;
    case Advance(_) =>
    case _ =>
      OtherMountsStay(s, a);
      if Concerns(t, a.m) {
        LatestAgrees(t, s, a);
      } else {
        assert Hear(t, a) == t;
      }
  }

  lemma {:induction false} OtherMountsStay(s: State, a: Action)
    requires !a.MountHook? && !a.Advance?
    ensures var t := Act(s, a);
            && |t.mounts| == |s.mounts|
            && forall m :: 0 <= m < |s.mounts| ==>
                 (m != a.m ==> t.mounts[m] == s.mounts[m]) && (s.mounts[m].disposed ==> t.mounts[m].disposed)
  {
  }

  lemma {:induction false} RunAgrees(run: seq<Action>, n: nat)
    requires n <= |run|
    ensures Agrees(Heard(run, n), After(run, n))
  {
    if n > 0 {
      RunAgrees(run, n - 1);
      StepAgrees(Heard(run, n - 1), After(run, n - 1), run[n - 1]);
    }
  }

  lemma {:induction false} WantedIsIntended(run: seq<Action>, n: nat, key: Key)
    requires n <= |run|
    ensures Wanted(Heard(run, n), key) == Intended(After(run, n), key)
  {
    RunAgrees(run, n);
  }

  /** On every run, whenever a key's queue has drained, the plugin has exactly the handler the actions ask for. */
  lemma {:induction false} DrainedIsWanted(run: seq<Action>, n: nat, key: Key)
    requires n <= |run| && After(run, n).Queue(key) == []
    ensures After(run, n).Handler(key) == Wanted(Heard(run, n), key)
  {
    DrainedIsIntended(run, n, key);
    WantedIsIntended(run, n, key);
  }

  /** The standing mount acts on exactly the presses that come while the window has focus. */
  lemma {:induction false} ActsWhileFocused(run: seq<Action>, n: nat, pressed: bool)
    requires n <= |run| && Heard(run, n).stands
    ensures var t, s := Heard(run, n), After(run, n);
            0 < t.mounts == |s.mounts| && (Triggers(s.mounts[t.mounts - 1], pressed) <==> pressed && t.focused)
  {
    RunAgrees(run, n);
  }

  /** Once a mount is disposed, a register of its that has not begun to write registers nothing. */
  lemma {:induction false} DisposedRegistersNothing(s: State, key: Key)
    requires s.Queue(key) != [] && s.Queue(key)[0].kind == Register && s.Queue(key)[0].progress != Writing
    requires s.Disposed(s.Queue(key)[0].mount)
    ensures var t := Act(s, Advance(key)); t.Handler(key) == s.Handler(key) && t.Queue(key) == s.Queue(key)[1..]
  {
  }

  // ----- The listener goes -----

  /** The steps left of a disposed mount's setup, and then its chained teardown. */
  function SetupSteps(mount: Mount, m: nat): seq<Action> {
    match mount.setup
    case Asking => [FocusAnswer(m, true), Teardown(m)]
    case Subscribing => [Subscribe(m), SubscribeAnswer(m), Teardown(m)]
    case Answering => [SubscribeAnswer(m), Teardown(m)]
    case SetUp => [Teardown(m)]
  }

  function ActAll(s: State, actions: seq<Action>, n: nat): State
    requires n <= |actions|
  {
    if n == 0 then s else Act(ActAll(s, actions, n - 1), actions[n - 1])
  }

  /** From every reachable state, a disposed mount's own remaining setup steps end with its listener gone. */
  lemma {:induction false} DisposedListenerGoes(run: seq<Action>, n: nat, m: nat)
    requires n <= |run| && m < |After(run, n).mounts| && After(run, n).mounts[m].disposed
    ensures var s := After(run, n);
            var steps := SetupSteps(s.mounts[m], m);
            var t := ActAll(s, steps, |steps|);
            |t.mounts| == |s.mounts| && !t.mounts[m].listening && t.mounts[m].setup == SetUp
  {
    RunKeepsListeners(run, n);
    var s := After(run, n);
    var steps := SetupSteps(s.mounts[m], m);
    assert ListenerOk(s.mounts[m]);
    var s1 := ActAll(s, steps, 1);
    assert ActAll(s, steps, 0) == s && s1 == Act(s, steps[0]);
    if |steps| > 1 {
      var s2 := ActAll(s, steps, 2);
      assert s2 == Act(s1, steps[1]);
      if |steps| > 2 {
        assert ActAll(s, steps, 3) == Act(s2, steps[2]);
      }
    }
  }
}
