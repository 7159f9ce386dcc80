/** The startup gate of one process: claim, retry, then run startup or forward. */
module InstanceGuard {

  const RECLAIM_ATTEMPTS := 4

  /** What one attempt on the platform's claim object answers. */
  datatype Answer = Primary | Secondary | Failed

  /** The answer the gate acts on: the first of five attempts that is not a loss, else the last loss. */
  function Decisive(answers: nat -> Answer, from: nat): Answer
    requires from <= RECLAIM_ATTEMPTS
    decreases RECLAIM_ATTEMPTS - from
  {
    if answers(from) == Secondary && from < RECLAIM_ATTEMPTS then Decisive(answers, from + 1) else answers(from)
  }

  /** `attempts` is how many attempts were made. */
  method ClaimOrWaitForExit(answers: nat -> Answer) returns (claim: Answer, attempts: nat)
    ensures 1 <= attempts <= 5
    ensures claim == answers(attempts - 1) == Decisive(answers, 0)
    ensures forall k: nat :: k < attempts - 1 ==> answers(k) == Secondary
    ensures claim == Secondary ==> attempts == 5
  {
    claim, attempts := answers(0), 1;
    if claim == Failed {
      return;
    }
    for k := 0 to RECLAIM_ATTEMPTS
      invariant attempts == k + 1 && claim == answers(k)
      invariant forall j: nat :: j < k ==> answers(j) == Secondary
      invariant Decisive(answers, k) == Decisive(answers, 0)
    {
      if claim != Secondary {
        break;
      }
      claim, attempts := answers(k + 1), attempts + 1;
      if claim == Failed {
        return;
      }
    }
  }

  datatype Effect = Publish | Park | RunStartup | Forward

  datatype Startup = Owned | Forwarded | OwnershipError | BodyError

  /** The process's parked claims and what the gate has done, in order. */
  class Gate {
    var held: nat
    var effects: seq<Effect>

    constructor ()
      ensures held == 0 && effects == []
    {
      held, effects := 0, [];
    }

    /** The owner id is published first, best effort, and the claim is parked before startup runs; a loser
        only forwards, and a failed claim does nothing at all. */
    method WithProfileOwnership(answers: nat -> Answer, startupOk: bool) returns (r: Startup)
      modifies this
      ensures Decisive(answers, 0) == Primary ==>
        r == (if startupOk then Owned else BodyError) && held == old(held) + 1
          && effects == old(effects) + [Publish, Park, RunStartup]
      ensures Decisive(answers, 0) == Secondary ==>
        r == Forwarded && held == old(held) && effects == old(effects) + [Forward]
      ensures Decisive(answers, 0) == Failed ==>
        r == OwnershipError && held == old(held) && effects == old(effects)
    {
      var claim, _ := ClaimOrWaitForExit(answers);
      match claim
      case Failed =>
        r := OwnershipError;
      case Secondary =>
        effects := effects + [Forward];
        r := Forwarded;
      case Primary =>
        effects := effects + [Publish];
        held, effects := held + 1, effects + [Park];
        effects := effects + [RunStartup];
        r := if startupOk then Owned else BodyError;
    }
  }
}

/** Any number of processes racing for claim objects, with the loser's open and close of a named object,
    crashes and failures as separate steps. */
module OwnershipProtocol {
  import opened InstanceGuard

  type Proc = nat
  type Target = nat

  /** A named object exists while some process holds it open; a file lock is held by one process. */
  datatype Platform = NamedObject | FileLock

  datatype Config = Config(platform: Platform, target: Proc -> Target)

  /** Where a process is; `attempts` counts the claim attempts it has made. */
  datatype Phase =
    | NotStarted
    | Ready(attempts: nat)
    | Losing(attempts: nat)
    | Won(attempts: nat)
    | Published
    | Parked
    | Starting
    | Running
    | StartFailed
    | Forwarding
    | Refused
    | Dead

  /** The processes' phases, and the processes whose handle on their claim object is open. */
  datatype State = State(phases: map<Proc, Phase>, open: set<Proc>) {
    function Phase(p: Proc): Phase {
      if p in phases then phases[p] else NotStarted
    }

    function To(p: Proc, phase: Phase): State {
      State(phases[p := phase], open)
    }
  }

  const INITIAL := State(map[], {})

  datatype Action =
    | Launch(p: Proc)
    | Attempt(p: Proc)
    | AttemptFails(p: Proc)
    | CloseHandle(p: Proc)
    | PublishPid(p: Proc)
    | ParkClaim(p: Proc)
    | BeginStartup(p: Proc)
    | EndStartup(p: Proc, ok: bool)
    | Die(p: Proc)

  /** Some process has the claim object of `p` open. */
  predicate Taken(cfg: Config, s: State, p: Proc) {
    exists q :: q in s.open && cfg.target(q) == cfg.target(p)
  }

  /** After `k` lost attempts: try again, or forward to the owner. */
  function AfterLoss(k: nat): Phase {
    if k <= RECLAIM_ATTEMPTS then Ready(k) else Forwarding
  }

  /** One step; an action whose process is not in the phase for it changes nothing. Creating a named object
      opens it whether or not it existed; a refused lock opens nothing. */
  function Act(cfg: Config, s: State, a: Action): State {
    match a
    case Launch(p) => if s.Phase(p) == NotStarted then s.To(p, Ready(0)) else s
    case Attempt(p) =>
      if !s.Phase(p).Ready? then s
      else
        var k := s.Phase(p).attempts + 1;
        if !Taken(cfg, s, p) then State(s.phases[p := Won(k)], s.open + {p})
        else if cfg.platform == NamedObject then State(s.phases[p := Losing(k)], s.open + {p})
        else s.To(p, AfterLoss(k))
    case AttemptFails(p) => if s.Phase(p).Ready? then s.To(p, Refused) else s
    case CloseHandle(p) =>
      if s.Phase(p).Losing? then State(s.phases[p := AfterLoss(s.Phase(p).attempts)], s.open - {p}) else s
    case PublishPid(p) => if s.Phase(p).Won? then s.To(p, Published) else s
    case ParkClaim(p) => if s.Phase(p) == Published then s.To(p, Parked) else s
    case BeginStartup(p) => if s.Phase(p) == Parked then s.To(p, Starting) else s
    case EndStartup(p, ok) => if s.Phase(p) == Starting then s.To(p, if ok then Running else StartFailed) else s
    case Die(p) => if s.Phase(p) == NotStarted then s else State(s.phases[p := Dead], s.open - {p})
  }

  function After(cfg: Config, run: seq<Action>, n: nat): State
    requires n <= |run|
  {
    if n == 0 then INITIAL else Act(cfg, After(cfg, run, n - 1), run[n - 1])
  }

  /** Past the gate: the claim is won and the process lives. */
  predicate Owner(phase: Phase) {
    phase.Won? || phase == Published || phase == Parked || InStartup(phase)
  }

  predicate InStartup(phase: Phase) {
    phase == Starting || phase == Running || phase == StartFailed
  }

  // ----- Invariants -----

  /** Handles are open for exactly the owners and the losers that have not closed theirs; owners of one
      object are one process; and no process makes more than five attempts. */
  ghost predicate Inv(cfg: Config, s: State) {
    && (forall p :: p in s.open <==> Owner(s.Phase(p)) || s.Phase(p).Losing?)
    && (forall p, q :: Owner(s.Phase(p)) && Owner(s.Phase(q)) && cfg.target(p) == cfg.target(q) ==> p == q)
    && (forall p :: AttemptsOk(s.Phase(p)))
    && (cfg.platform == FileLock ==> forall p :: !s.Phase(p).Losing?)
  }

  predicate AttemptsOk(phase: Phase) {
    && (phase.Ready? ==> phase.attempts <= RECLAIM_ATTEMPTS)
    && (phase.Losing? || phase.Won? ==> 1 <= phase.attempts <= RECLAIM_ATTEMPTS + 1)
  }

  lemma {:induction false} ActKeepsInv(cfg: Config, s: State, a: Action)
    requires Inv(cfg, s)
    ensures Inv(cfg, Act(cfg, s, a))
  {
    var t := Act(cfg, s, a);
    assert forall q :: q != a.p ==> t.Phase(q) == s.Phase(q);
    if a.Attempt? && s.Phase(a.p).Ready? && !Taken(cfg, s, a.p) {
      forall q | Owner(s.Phase(q)) ensures cfg.target(q) != cfg.target(a.p) {
        assert q in s.open;
      }
    }
  }

  lemma {:induction false} RunKeepsInv(cfg: Config, run: seq<Action>, n: nat)
    requires n <= |run|
    ensures Inv(cfg, After(cfg, run, n))
  {
    if n > 0 {
      RunKeepsInv(cfg, run, n - 1);
      ActKeepsInv(cfg, After(cfg, run, n - 1), run[n - 1]);
    }
  }

  /** At every point of every run, at most one live process per claim object is past the gate, and startup
      code runs only in a process that holds the claim. */
  lemma {:induction false} MutualExclusion(cfg: Config, run: seq<Action>, n: nat, p: Proc, q: Proc)
    requires n <= |run| && cfg.target(p) == cfg.target(q)
    ensures var s := After(cfg, run, n);
            && (Owner(s.Phase(p)) && Owner(s.Phase(q)) ==> p == q)
            && (InStartup(s.Phase(p)) ==> p in s.open)
            && (s.Phase(p).Ready? || s.Phase(p).Losing? || s.Phase(p).Won? ==>
              s.Phase(p).attempts <= 5)
  {
    RunKeepsInv(cfg, run, n);
  }

  lemma {:induction false} ActIsForward(cfg: Config, s: State, a: Action, p: Proc)
    ensures var before, after := s.Phase(p), Act(cfg, s, a).Phase(p);
            && (Owner(before) ==> Owner(after) || after == Dead)
            && (InStartup(before) ==> InStartup(after) || after == Dead)
            && (before == Forwarding || before == Refused ==> after == before || after == Dead)
            && (before == Dead ==> after == Dead)
            && (InStartup(after) && !InStartup(before) ==> before == Parked)
  {
  }

  /** A claim, once won, is held until the process dies. */
  lemma {:induction false} HeldUntilDeath(cfg: Config, run: seq<Action>, i: nat, j: nat, p: Proc)
    requires i <= j <= |run| && Owner(After(cfg, run, i).Phase(p))
    ensures var s := After(cfg, run, j); s.Phase(p) == Dead || (Owner(s.Phase(p)) && p in s.open)
    decreases j
  {
    RunKeepsInv(cfg, run, j);
    if i < j {
      HeldUntilDeath(cfg, run, i, j - 1, p);
      ActIsForward(cfg, After(cfg, run, j - 1), run[j - 1], p);
    }
  }

  lemma {:induction false} FinalPhases(cfg: Config, run: seq<Action>, i: nat, j: nat, p: Proc)
    requires i <= j <= |run|
    requires var phase := After(cfg, run, i).Phase(p); phase == Forwarding || phase == Refused || phase == Dead
    ensures var phase := After(cfg, run, j).Phase(p); phase == After(cfg, run, i).Phase(p) || phase == Dead
    decreases j
  {
    if i < j {
      FinalPhases(cfg, run, i, j - 1, p);
      ActIsForward(cfg, After(cfg, run, j - 1), run[j - 1], p);
    }
  }

  /** A process that forwards (or is refused) runs no startup code, before or after. */
  lemma {:induction false} ForwardedNeverStarts(cfg: Config, run: seq<Action>, i: nat, j: nat, p: Proc)
    requires i <= |run| && j <= |run|
    requires After(cfg, run, i).Phase(p) == Forwarding || After(cfg, run, i).Phase(p) == Refused
    ensures !InStartup(After(cfg, run, j).Phase(p)) && !Owner(After(cfg, run, j).Phase(p))
  {
    if i <= j {
      FinalPhases(cfg, run, i, j, p);
    } else if Owner(After(cfg, run, j).Phase(p)) {
      HeldUntilDeath(cfg, run, j, i, p);
    }
  }

  // ----- What a lost attempt means -----

  /** An attempt wins exactly when nobody has the object open; with a file lock, exactly when no owner lives. */
  lemma {:induction false} AttemptWinsExactly(cfg: Config, run: seq<Action>, n: nat, p: Proc)
    requires n <= |run| && After(cfg, run, n).Phase(p).Ready?
    ensures var s := After(cfg, run, n);
            && (Owner(Act(cfg, s, Attempt(p)).Phase(p)) <==>
                  forall q :: cfg.target(q) == cfg.target(p) ==> !Owner(s.Phase(q)) && !s.Phase(q).Losing?)
            && (cfg.platform == FileLock ==>
                 (Owner(Act(cfg, s, Attempt(p)).Phase(p)) <==>
                    forall q :: cfg.target(q) == cfg.target(p) ==> !Owner(s.Phase(q))))
  {
    RunKeepsInv(cfg, run, n);
    var s := After(cfg, run, n);
    if !Taken(cfg, s, p) {
      forall q | cfg.target(q) == cfg.target(p) ensures !Owner(s.Phase(q)) && !s.Phase(q).Losing? {
        assert q !in s.open;
      }
    }
  }

  /** With a file lock, a process that gives up and forwards has just met a live owner. */
  lemma {:induction false} FileLockForwardsToOwner(cfg: Config, run: seq<Action>, n: nat, p: Proc)
    requires cfg.platform == FileLock && n < |run|
    requires After(cfg, run, n).Phase(p) != Forwarding && After(cfg, run, n + 1).Phase(p) == Forwarding
    ensures exists q :: q != p && cfg.target(q) == cfg.target(p) && Owner(After(cfg, run, n).Phase(q))
  {
    RunKeepsInv(cfg, run, n);
    var s := After(cfg, run, n);
    assert run[n] == Attempt(p);
    var q :| q in s.open && cfg.target(q) == cfg.target(p);
  }
}
