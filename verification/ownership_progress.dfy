/** What a process can always do next in the ownership protocol: start when nobody holds the claim, take over
    from an owner that died, forward after five losses. */
module OwnershipProgress {
  import opened InstanceGuard
  import opened OwnershipGate
  import opened OwnershipProtocol
  import opened OwnershipStandoff

  /** A process that finds nobody at its claim object wins it, and gets to run startup with the claim held. */
  lemma {:induction false} UnheldClaimStarts(cfg: Config, s: State, p: Proc, ok: bool)
    requires s.Phase(p).Ready? && !Taken(cfg, s, p)
    ensures var t := ActAll(cfg, s, [Attempt(p), PublishPid(p), ParkClaim(p), BeginStartup(p)]);
            && t.Phase(p) == Starting && p in t.open
            && Act(cfg, t, EndStartup(p, ok)).Phase(p) == if ok then Running else StartFailed
  {
    ActFour(cfg, s, Attempt(p), PublishPid(p), ParkClaim(p), BeginStartup(p));
    var s1 := Act(cfg, s, Attempt(p));
    assert s1.Phase(p).Won? && p in s1.open;
    var s2 := Act(cfg, s1, PublishPid(p));
    assert s2.Phase(p) == Published && p in s2.open;
    var s3 := Act(cfg, s2, ParkClaim(p));
    assert s3.Phase(p) == Parked && p in s3.open;
  }

  /** A relaunch still trying when the owner dies takes over, unless another loser has the object open. */
  lemma {:induction false} RelaunchTakesOver(cfg: Config, run: seq<Action>, n: nat, p: Proc, q: Proc)
    requires n <= |run| && cfg.target(p) == cfg.target(q) && p != q
    requires Owner(After(cfg, run, n).Phase(p)) && After(cfg, run, n).Phase(q).Ready?
    ensures var s := After(cfg, run, n);
            Owner(Act(cfg, Act(cfg, s, Die(p)), Attempt(q)).Phase(q)) <==>
              forall r :: cfg.target(r) == cfg.target(q) ==> !s.Phase(r).Losing?
  {
    RunKeepsInv(cfg, run, n);
    var s := After(cfg, run, n);
    var t := Act(cfg, s, Die(p));
    assert t.Phase(q) == s.Phase(q) && t.open == s.open - {p};
    if forall r :: cfg.target(r) == cfg.target(q) ==> !s.Phase(r).Losing? {
      forall r | r in t.open ensures cfg.target(r) != cfg.target(q) {
        assert r in s.open;
      }
    } else {
      var r :| cfg.target(r) == cfg.target(q) && s.Phase(r).Losing?;
      assert r in t.open;
    }
  }

  /** The steps of one lost attempt. */
  function Loss(cfg: Config, p: Proc): seq<Action> {
    if cfg.platform == NamedObject then [Attempt(p), CloseHandle(p)] else [Attempt(p)]
  }

  lemma {:induction false} LossesCount(cfg: Config, s: State, p: Proc, q: Proc)
    requires q in s.open && q != p && cfg.target(p) == cfg.target(q) && s.Phase(p).Ready?
    ensures var t := ActAll(cfg, s, Loss(cfg, p));
            t.Phase(p) == AfterLoss(s.Phase(p).attempts + 1) && q in t.open && t.Phase(q) == s.Phase(q)
  {
    var s1 := Act(cfg, s, Attempt(p));
    assert Taken(cfg, s, p) && s1.Phase(q) == s.Phase(q);
    if cfg.platform == NamedObject {
      ActTwo(cfg, s, Attempt(p), CloseHandle(p));
    } else {
      assert [Attempt(p)][1..] == [];
    }
  }

  /** Against an owner that stays, a process loses five times and then forwards. */
  lemma {:induction false} FiveLossesForward(cfg: Config, s: State, p: Proc, q: Proc) returns (actions: seq<Action>)
    requires q in s.open && q != p && cfg.target(p) == cfg.target(q)
    requires s.Phase(p).Ready? && s.Phase(p).attempts <= 4
    ensures var t := ActAll(cfg, s, actions); t.Phase(p) == Forwarding && t.Phase(q) == s.Phase(q)
    ensures |actions| == (5 - s.Phase(p).attempts) * |Loss(cfg, p)|
    ensures forall k :: 0 <= k < |actions| ==> actions[k].p == p
    decreases 4 - s.Phase(p).attempts
  {
    var loss := Loss(cfg, p);
    LossesCount(cfg, s, p, q);
    var t := ActAll(cfg, s, loss);
    if s.Phase(p).attempts == 4 {
      actions := loss;
    } else {
      var rest := FiveLossesForward(cfg, t, p, q);
      actions := loss + rest;
      ActAllJoins(cfg, s, loss, rest);
    }
  }

  /** A living process's phase is decided by the answers its attempts got. */
  lemma {:induction false} AnswersDecide(cfg: Config, run: seq<Action>, n: nat, p: Proc)
    requires n <= |run| && After(cfg, run, n).Phase(p) != Dead
    ensures var phase, heard := After(cfg, run, n).Phase(p), Answers(cfg, run, n, p);
            && (Owner(phase) <==> EndsWith(heard, Primary))
            && (phase == Refused <==> EndsWith(heard, Failed))
            && (phase == Forwarding || (phase.Losing? && phase.attempts == 5) <==> |heard| == 5 && AllLost(heard))
  {
    RunHeard(cfg, run, n, p);
    var heard := Answers(cfg, run, n, p);
    assert |heard| > 0 && AllLost(heard) ==> heard[|heard| - 1] == Secondary;
  }
}
