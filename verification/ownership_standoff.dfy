/** When a lost claim attempt has met a live owner: always, unless processes lose to one another. */
module OwnershipStandoff {
  import opened InstanceGuard
  import opened OwnershipProtocol

  /** Step `n` is an attempt of `p` that is lost. */
  predicate Lost(cfg: Config, run: seq<Action>, n: nat, p: Proc) {
    && n < |run| && run[n] == Attempt(p)
    && After(cfg, run, n).Phase(p).Ready? && !Owner(After(cfg, run, n + 1).Phase(p))
  }

  ghost predicate OtherOwner(cfg: Config, s: State, p: Proc) {
    exists q :: q != p && cfg.target(q) == cfg.target(p) && Owner(s.Phase(q))
  }

  /** What a lost attempt is taken to mean: another live process owns the profile. */
  ghost predicate LossMeansOwner(cfg: Config) {
    forall run, n, p :: Lost(cfg, run, n, p) ==> OtherOwner(cfg, After(cfg, run, n), p)
  }

  predicate Share(cfg: Config, p: Proc, q: Proc, r: Proc) {
    && p != q && q != r && p != r
    && cfg.target(p) == cfg.target(q) == cfg.target(r)
  }

  // ----- Losers are behind an owner, living or dead -----

  predicate Behind(cfg: Config, s: State, q: Proc, r: Proc) {
    r != q && cfg.target(r) == cfg.target(q) && (Owner(s.Phase(r)) || s.Phase(r) == Dead)
  }

  ghost predicate LosersBehind(cfg: Config, s: State) {
    forall q :: s.Phase(q).Losing? ==> exists r :: Behind(cfg, s, q, r)
  }

  lemma {:induction false} StaysBehind(cfg: Config, s: State, a: Action, q: Proc, r: Proc)
    requires Behind(cfg, s, q, r)
    ensures Behind(cfg, Act(cfg, s, a), q, r)
  {
    ActIsForward(cfg, s, a, r);
  }

  /** A process that loses an attempt is behind the one it lost to, or behind the one that one is behind. */
  lemma {:induction false} LoserBehind(cfg: Config, s: State, p: Proc) returns (r: Proc)
    requires Inv(cfg, s) && LosersBehind(cfg, s) && s.Phase(p).Ready? && Taken(cfg, s, p)
    ensures Behind(cfg, s, p, r)
  {
    var q :| q in s.open && cfg.target(q) == cfg.target(p);
    if Owner(s.Phase(q)) {
      r := q;
    } else {
      r :| Behind(cfg, s, q, r);
    }
  }

  lemma {:induction false} ActKeepsBehind(cfg: Config, s: State, a: Action)
    requires Inv(cfg, s) && LosersBehind(cfg, s)
    ensures LosersBehind(cfg, Act(cfg, s, a))
  {
    var t := Act(cfg, s, a);
    forall q | t.Phase(q).Losing? ensures exists r :: Behind(cfg, t, q, r) {
      var r: Proc;
      if s.Phase(q).Losing? {
        r :| Behind(cfg, s, q, r);
      } else {
        r := LoserBehind(cfg, s, q);
      }
      StaysBehind(cfg, s, a, q, r);
    }
  }

  lemma {:induction false} RunKeepsBehind(cfg: Config, run: seq<Action>, n: nat)
    requires n <= |run|
    ensures LosersBehind(cfg, After(cfg, run, n))
  {
    if n > 0 {
      RunKeepsBehind(cfg, run, n - 1);
      RunKeepsInv(cfg, run, n - 1);
      ActKeepsBehind(cfg, After(cfg, run, n - 1), run[n - 1]);
    }
  }

  /** An attempt is lost to a live owner, or to a loser behind a third process. */
  lemma {:induction false} LostTo(cfg: Config, run: seq<Action>, n: nat, p: Proc)
    requires Lost(cfg, run, n, p)
    ensures OtherOwner(cfg, After(cfg, run, n), p)
      || (cfg.platform == NamedObject && exists q, r :: Share(cfg, p, q, r))
  {
    RunKeepsInv(cfg, run, n);
    RunKeepsBehind(cfg, run, n);
    var s := After(cfg, run, n);
    assert Taken(cfg, s, p);
    var q :| q in s.open && cfg.target(q) == cfg.target(p);
    if !Owner(s.Phase(q)) {
      var r :| Behind(cfg, s, q, r);
      assert Share(cfg, p, q, r);
    }
  }

  // ----- Runs of actions -----

  /** The steps of a list of actions from a state. */
  function ActAll(cfg: Config, s: State, actions: seq<Action>): State
    decreases actions
  {
    if actions == [] then s else ActAll(cfg, Act(cfg, s, actions[0]), actions[1..])
  }

  lemma {:induction false} ActAllIsAfter(cfg: Config, run: seq<Action>, n: nat)
    requires n <= |run|
    ensures ActAll(cfg, After(cfg, run, n), run[n..]) == After(cfg, run, |run|)
    decreases |run| - n
  {
    if n < |run| {
      assert run[n..][0] == run[n] && run[n..][1..] == run[n + 1..];
      ActAllIsAfter(cfg, run, n + 1);
    }
  }

  lemma {:induction false} ActAllJoins(cfg: Config, s: State, xs: seq<Action>, ys: seq<Action>)
    ensures ActAll(cfg, s, xs + ys) == ActAll(cfg, ActAll(cfg, s, xs), ys)
    decreases xs
  {
    if xs == [] {
      assert xs + ys == ys;
    } else {
      assert (xs + ys)[1..] == xs[1..] + ys;
      ActAllJoins(cfg, Act(cfg, s, xs[0]), xs[1..], ys);
    }
  }

  lemma {:induction false} ActTwo(cfg: Config, s: State, a: Action, b: Action)
    ensures ActAll(cfg, s, [a, b]) == Act(cfg, Act(cfg, s, a), b)
  {
    assert [a, b][1..] == [b];
    assert [b][1..] == [];
    assert ActAll(cfg, Act(cfg, s, a), [b]) == Act(cfg, Act(cfg, s, a), b);
  }

  lemma {:induction false} ActFour(cfg: Config, s: State, a: Action, b: Action, c: Action, d: Action)
    ensures ActAll(cfg, s, [a, b, c, d]) == Act(cfg, Act(cfg, Act(cfg, Act(cfg, s, a), b), c), d)
  {
    ActTwo(cfg, s, a, b);
    ActTwo(cfg, Act(cfg, Act(cfg, s, a), b), c, d);
    assert [a, b] + [c, d] == [a, b, c, d];
    ActAllJoins(cfg, s, [a, b], [c, d]);
  }

  lemma {:induction false} AfterPrefix(cfg: Config, run: seq<Action>, more: seq<Action>, n: nat)
    requires n <= |run|
    ensures After(cfg, run + more, n) == After(cfg, run, n)
  {
    if n > 0 {
      AfterPrefix(cfg, run, more, n - 1);
    }
  }

  // ----- Two losers behind a dead owner -----

  /** `q` stands with the object open after `k` lost attempts, `r` ready after one fewer, and the owner, `p`,
      is dead. */
  predicate Standoff(s: State, p: Proc, q: Proc, r: Proc, k: nat) {
    && k >= 1 && s.open == {q}
    && s.Phase(p) == Dead && s.Phase(q) == Losing(k) && s.Phase(r) == Ready(k - 1)
  }

  lemma {:induction false} StandoffBegins(cfg: Config, p: Proc, q: Proc, r: Proc) returns (run: seq<Action>)
    requires cfg.platform == NamedObject && Share(cfg, p, q, r)
    ensures Standoff(After(cfg, run, |run|), p, q, r, 1)
  {
    var claim, lose := [Launch(p), Attempt(p), Launch(q), Launch(r)], [Attempt(q), Die(p)];
    FirstClaims(cfg, p, q, r);
    OwnerDies(cfg, ActAll(cfg, INITIAL, claim), p, q, r);
    run := claim + lose;
    ActAllJoins(cfg, INITIAL, claim, lose);
    ActAllIsAfter(cfg, run, 0);
    assert run[0..] == run;
  }

  lemma {:induction false} FirstClaims(cfg: Config, p: Proc, q: Proc, r: Proc)
    requires Share(cfg, p, q, r)
    ensures var s := ActAll(cfg, INITIAL, [Launch(p), Attempt(p), Launch(q), Launch(r)]);
            s.open == {p} && s.Phase(p) == Won(1) && s.Phase(q) == Ready(0) && s.Phase(r) == Ready(0)
  {
    ActFour(cfg, INITIAL, Launch(p), Attempt(p), Launch(q), Launch(r));
    var s1 := Act(cfg, INITIAL, Launch(p));
    var s2 := Act(cfg, s1, Attempt(p));
    assert s1.open == {} && s1.Phase(p) == Ready(0) && s2.open == {p} && s2.Phase(p) == Won(1);
  }

  lemma {:induction false} OwnerDies(cfg: Config, s: State, p: Proc, q: Proc, r: Proc)
    requires cfg.platform == NamedObject && Share(cfg, p, q, r)
    requires s.open == {p} && s.Phase(p) == Won(1) && s.Phase(q) == Ready(0) && s.Phase(r) == Ready(0)
    ensures Standoff(ActAll(cfg, s, [Attempt(q), Die(p)]), p, q, r, 1)
  {
    ActTwo(cfg, s, Attempt(q), Die(p));
    var s1 := Act(cfg, s, Attempt(q));
    assert p in s.open && s1.open == {p, q} && s1.Phase(q) == Losing(1);
  }

  /** In a standoff the next attempt is lost, and nobody owns the object. */
  lemma {:induction false} StandoffLoses(cfg: Config, run: seq<Action>, p: Proc, q: Proc, r: Proc)
    requires cfg.platform == NamedObject && Share(cfg, p, q, r) && Standoff(After(cfg, run, |run|), p, q, r, 1)
    ensures var longer := run + [Attempt(r)];
            Lost(cfg, longer, |run|, r) && !OtherOwner(cfg, After(cfg, longer, |run|), r)
  {
    var longer, s := run + [Attempt(r)], After(cfg, run, |run|);
    AfterPrefix(cfg, run, [Attempt(r)], |run|);
    RunKeepsInv(cfg, run, |run|);
    assert After(cfg, longer, |run| + 1) == Act(cfg, s, Attempt(r));
    assert q in s.open && Taken(cfg, s, r);
    forall o ensures !Owner(s.Phase(o)) {
      if o != q {
        assert o !in s.open;
      }
    }
  }

  /** On every run every lost attempt has met another live owner, if and only if the claim is a file lock or
      no three processes share a claim object. */
  lemma {:induction false} LossMeansOwnerExactly(cfg: Config)
    ensures LossMeansOwner(cfg) <==> cfg.platform == FileLock || !exists p, q, r :: Share(cfg, p, q, r)
  {
    if cfg.platform == FileLock || !exists p, q, r :: Share(cfg, p, q, r) {
      forall run, n, p | Lost(cfg, run, n, p) ensures OtherOwner(cfg, After(cfg, run, n), p) {
        LostTo(cfg, run, n, p);
      }
    } else {
      var p, q, r :| Share(cfg, p, q, r);
      var run := StandoffBegins(cfg, p, q, r);
      StandoffLoses(cfg, run, p, q, r);
    }
  }

  // ----- Until both forward -----

  function Round(q: Proc, r: Proc): seq<Action> {
    [Attempt(r), CloseHandle(q), Attempt(q), CloseHandle(r)]
  }

  /** Each loser's attempt falls while the other has the object open. */
  lemma {:induction false} RoundKeepsStandoff(cfg: Config, s: State, p: Proc, q: Proc, r: Proc, k: nat)
    requires cfg.platform == NamedObject && Share(cfg, p, q, r)
    requires Standoff(s, p, q, r, k) && k <= RECLAIM_ATTEMPTS
    ensures Standoff(ActAll(cfg, s, Round(q, r)), p, q, r, k + 1)
  {
    ActFour(cfg, s, Attempt(r), CloseHandle(q), Attempt(q), CloseHandle(r));
    var s1 := Act(cfg, s, Attempt(r));
    assert q in s.open && s1.Phase(r) == Losing(k) && s1.open == {q, r};
    var s2 := Act(cfg, s1, CloseHandle(q));
    assert s2.Phase(q) == Ready(k) && s2.open == {r};
    var s3 := Act(cfg, s2, Attempt(q));
    assert r in s2.open && s3.Phase(q) == Losing(k + 1) && s3.open == {q, r};
    var s4 := Act(cfg, s3, CloseHandle(r));
    assert s4.Phase(r) == Ready(k) && s4.open == {q};
  }

  lemma {:induction false} RoundsKeepStandoff(cfg: Config, s: State, p: Proc, q: Proc, r: Proc, k: nat, n: nat)
    returns (actions: seq<Action>)
    requires cfg.platform == NamedObject && Share(cfg, p, q, r)
    requires Standoff(s, p, q, r, k) && k + n <= RECLAIM_ATTEMPTS + 1
    ensures Standoff(ActAll(cfg, s, actions), p, q, r, k + n)
    decreases n
  {
    if n == 0 {
      return [];
    }
    RoundKeepsStandoff(cfg, s, p, q, r, k);
    var rest := RoundsKeepStandoff(cfg, ActAll(cfg, s, Round(q, r)), p, q, r, k + 1, n - 1);
    ActAllJoins(cfg, s, Round(q, r), rest);
    actions := Round(q, r) + rest;
  }

  lemma {:induction false} BothForward(cfg: Config, s: State, p: Proc, q: Proc, r: Proc)
    requires cfg.platform == NamedObject && Share(cfg, p, q, r) && Standoff(s, p, q, r, RECLAIM_ATTEMPTS + 1)
    ensures var t := ActAll(cfg, s, [Attempt(r), CloseHandle(q), CloseHandle(r), Launch(p)]);
            t.Phase(p) == Dead && t.Phase(q) == Forwarding && t.Phase(r) == Forwarding && t.open == {}
  {
    ActFour(cfg, s, Attempt(r), CloseHandle(q), CloseHandle(r), Launch(p));
    var s1 := Act(cfg, s, Attempt(r));
    assert q in s.open && s1.Phase(r) == Losing(RECLAIM_ATTEMPTS + 1) && s1.open == {q, r};
  }

  /** With named objects, any three processes that share one have a run on which the owner dies and the other
      two keep the object open for each other until both forward, to nobody. */
  lemma {:induction false} NamedObjectCanForwardToNobody(cfg: Config, p: Proc, q: Proc, r: Proc)
    returns (run: seq<Action>)
    requires cfg.platform == NamedObject && Share(cfg, p, q, r)
    ensures var s := After(cfg, run, |run|);
            s.Phase(p) == Dead && s.Phase(q) == Forwarding && s.Phase(r) == Forwarding && s.open == {}
  {
    var first := StandoffBegins(cfg, p, q, r);
    var s := After(cfg, first, |first|);
    var rounds := RoundsKeepStandoff(cfg, s, p, q, r, 1, RECLAIM_ATTEMPTS);
    var last := [Attempt(r), CloseHandle(q), CloseHandle(r), Launch(p)];
    BothForward(cfg, ActAll(cfg, s, rounds), p, q, r);
    ActAllJoins(cfg, s, rounds, last);
    run := first + (rounds + last);
    AfterPrefix(cfg, first, rounds + last, |first|);
    ActAllIsAfter(cfg, run, |first|);
    assert run[|first|..] == rounds + last;
  }
}
