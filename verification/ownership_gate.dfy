/** The gate of one process, driven by the answers its own attempts get in a run of all processes. */
module OwnershipGate {
  import opened InstanceGuard
  import opened OwnershipProtocol

  /** What one step answers to an attempt of `p`, if it is one. */
  function AnswerTo(cfg: Config, s: State, a: Action, p: Proc): seq<Answer> {
    if !s.Phase(p).Ready? || a.p != p then []
    else if a.Attempt? then [if Taken(cfg, s, p) then Secondary else Primary]
    else if a.AttemptFails? then [Failed]
    else []
  }

  /** The answers the attempts of `p` get in the first `n` steps, in order. */
  function Answers(cfg: Config, run: seq<Action>, n: nat, p: Proc): seq<Answer>
    requires n <= |run|
  {
    if n == 0 then [] else Answers(cfg, run, n - 1, p) + AnswerTo(cfg, After(cfg, run, n - 1), run[n - 1], p)
  }

  predicate AllLost(answers: seq<Answer>) {
    forall k :: 0 <= k < |answers| ==> answers[k] == Secondary
  }

  /** Every answer but the last is a loss, and the last is `final`. */
  predicate EndsWith(answers: seq<Answer>, final: Answer) {
    && 1 <= |answers| <= RECLAIM_ATTEMPTS + 1
    && AllLost(answers[..|answers| - 1]) && answers[|answers| - 1] == final
  }

  /** What a living process's phase says of its answers so far. */
  predicate Heard(phase: Phase, answers: seq<Answer>) {
    && (phase == NotStarted ==> answers == [])
    && (phase.Ready? ==> |answers| == phase.attempts <= RECLAIM_ATTEMPTS && AllLost(answers))
    && (phase.Losing? ==> 1 <= |answers| == phase.attempts <= RECLAIM_ATTEMPTS + 1 && AllLost(answers))
    && (phase.Won? ==> |answers| == phase.attempts)
    && (Owner(phase) ==> EndsWith(answers, Primary))
    && (phase == Forwarding ==> |answers| == RECLAIM_ATTEMPTS + 1 && AllLost(answers))
    && (phase == Refused ==> EndsWith(answers, Failed))
  }

  lemma {:induction false} HeardAnswer(before: Phase, after: Phase, answers: seq<Answer>, answer: Answer)
    requires before.Ready? && Heard(before, answers)
    requires match answer
             case Primary => after == Won(before.attempts + 1)
             case Secondary => after == Losing(before.attempts + 1) || after == AfterLoss(before.attempts + 1)
             case Failed => after == Refused
    ensures Heard(after, answers + [answer])
  {
    assert (answers + [answer])[..|answers|] == answers;
  }

  lemma {:induction false} HeardNothing(before: Phase, after: Phase, answers: seq<Answer>)
    requires Heard(before, answers)
    requires || after == before || after == Dead || (before == NotStarted && after == Ready(0))
             || (before.Losing? && after == AfterLoss(before.attempts))
             || (Owner(before) && Owner(after) && !after.Won?)
    ensures Heard(after, answers)
  {
  }

  lemma {:induction false} HeardNext(cfg: Config, s: State, a: Action, p: Proc, answers: seq<Answer>)
    requires Heard(s.Phase(p), answers)
    ensures Heard(Act(cfg, s, a).Phase(p), answers + AnswerTo(cfg, s, a, p))
  {
    var before, after, next := s.Phase(p), Act(cfg, s, a).Phase(p), AnswerTo(cfg, s, a, p);
    if next != [] {
      HeardAnswer(before, after, answers, next[0]);
    } else {
      assert answers + [] == answers;
      HeardNothing(before, after, answers);
    }
  }

  lemma {:induction false} RunHeard(cfg: Config, run: seq<Action>, n: nat, p: Proc)
    requires n <= |run|
    ensures Heard(After(cfg, run, n).Phase(p), Answers(cfg, run, n, p))
  {
    if n > 0 {
      RunHeard(cfg, run, n - 1, p);
      HeardNext(cfg, After(cfg, run, n - 1), run[n - 1], p, Answers(cfg, run, n - 1, p));
    }
  }

  /** `answers` gives, to each attempt in turn, what the run gave it. */
  ghost predicate Gives(answers: nat -> Answer, heard: seq<Answer>) {
    forall k: nat :: k < |heard| ==> answers(k) == heard[k]
  }

  lemma {:induction false} DecisiveAfterLosses(answers: nat -> Answer, k: nat)
    requires k <= RECLAIM_ATTEMPTS && forall j: nat :: j < k ==> answers(j) == Secondary
    ensures Decisive(answers, 0) == Decisive(answers, k)
  {
    if k > 0 {
      DecisiveAfterLosses(answers, k - 1);
    }
  }

  lemma {:induction false} DecisiveIsLast(answers: nat -> Answer, heard: seq<Answer>)
    requires Gives(answers, heard) && heard != []
    requires EndsWith(heard, heard[|heard| - 1])
    requires heard[|heard| - 1] != Secondary || |heard| == RECLAIM_ATTEMPTS + 1
    ensures Decisive(answers, 0) == heard[|heard| - 1]
  {
    var last := |heard| - 1;
    forall j: nat | j < last ensures answers(j) == Secondary {
      assert heard[..last][j] == heard[j];
    }
    DecisiveAfterLosses(answers, last);
  }

  /** In every run a process is past the gate, forwards or is refused just as the claim loop decides on the
      answers its attempts got there, after as many attempts as the loop makes. */
  lemma {:induction false} PhaseIsDecision(cfg: Config, run: seq<Action>, n: nat, p: Proc, answers: nat -> Answer)
    requires n <= |run| && Gives(answers, Answers(cfg, run, n, p))
    ensures var phase, heard := After(cfg, run, n).Phase(p), Answers(cfg, run, n, p);
            && (Owner(phase) ==> Decisive(answers, 0) == Primary)
            && (phase == Forwarding ==> Decisive(answers, 0) == Secondary)
            && (phase == Refused ==> Decisive(answers, 0) == Failed)
            && (Owner(phase) || phase == Forwarding || phase == Refused ==>
                  |heard| >= 1 && heard[|heard| - 1] == Decisive(answers, 0) && AllLost(heard[..|heard| - 1]))
  {
    RunHeard(cfg, run, n, p);
    var phase, heard := After(cfg, run, n).Phase(p), Answers(cfg, run, n, p);
    if Owner(phase) || phase == Forwarding || phase == Refused {
      DecisiveIsLast(answers, heard);
    }
  }

  /** The claim loop itself, run on those answers, returns what the process's phase says. */
  method ClaimInRun(ghost cfg: Config, ghost run: seq<Action>, ghost n: nat, ghost p: Proc, answers: nat -> Answer)
    returns (claim: Answer, attempts: nat)
    requires n <= |run| && Gives(answers, Answers(cfg, run, n, p))
    ensures var phase, heard := After(cfg, run, n).Phase(p), Answers(cfg, run, n, p);
            && (Owner(phase) ==> claim == Primary && attempts == |heard|)
            && (phase == Forwarding ==> claim == Secondary && attempts == |heard|)
            && (phase == Refused ==> claim == Failed && attempts == |heard|)
  {
    PhaseIsDecision(cfg, run, n, p, answers);
    RunHeard(cfg, run, n, p);
    claim, attempts := ClaimOrWaitForExit(answers);
  }
}
