/** Token refresh with a double check under a lock: requests of many tasks interleave at their await points. */
module TokenRefresh {
  import opened CatalogModels

  /** Where a task stands: waiting for the lock, inside the login request, or inside a request sent with `header`. */
  datatype Phase = Idle | Waiting | LoggingIn | Sent(header: Option<int>)

  /** `logins` and `resets` are history: successful logins, and rejected requests that cleared the token field. */
  datatype State = State(token: Option<int>, lock: Option<nat>, phase: map<nat, Phase>, logins: nat, resets: nat)

  datatype Step =
    | Begin(t: nat)             // a request starts: the first check of the token
    | Obtain(t: nat)            // the lock is free for t: the second check
    | LoggedIn(t: nat, token: int)
    | LoginFailed(t: nat)
    | Answered(t: nat)          // any outcome that leaves the token alone
    | Rejected(t: nat)          // 401 or 403

  function PhaseOf(s: State, t: nat): Phase { if t in s.phase then s.phase[t] else Idle }

  function At(s: State, t: nat, p: Phase): State { s.(phase := s.phase[t := p]) }

  /** The headers are built from the token field as it is at that moment. */
  function Send(s: State, t: nat): State { At(s, t, Sent(s.token)) }

  predicate Enabled(s: State, step: Step) {
    match step
    case Begin(t) => PhaseOf(s, t).Idle?
    case Obtain(t) => PhaseOf(s, t).Waiting? && s.lock.None?
    case LoggedIn(t, _) => PhaseOf(s, t).LoggingIn?
    case LoginFailed(t) => PhaseOf(s, t).LoggingIn?
    case Answered(t) => PhaseOf(s, t).Sent?
    case Rejected(t) => PhaseOf(s, t).Sent?
  }

  function Apply(s: State, step: Step): State
    requires Enabled(s, step)
  {
    match step
    case Begin(t) => if s.token.None? then At(s, t, Waiting) else Send(s, t)
    case Obtain(t) => if s.token.None? then At(s, t, LoggingIn).(lock := Some(t)) else Send(s, t)
    case LoggedIn(t, token) => Send(s.(token := Some(token), logins := s.logins + 1, lock := None), t)
    case LoginFailed(t) => At(s, t, Idle).(lock := None)
    case Answered(t) => At(s, t, Idle)
    case Rejected(t) => At(s, t, Idle).(token := None, resets := s.resets + 1)
  }

  predicate Allowed(s: State, steps: seq<Step>)
    decreases steps
  {
    steps == [] || (Enabled(s, steps[0]) && Allowed(Apply(s, steps[0]), steps[1..]))
  }

  function Run(s: State, steps: seq<Step>): State
    requires Allowed(s, steps)
    decreases steps
  {
    if steps == [] then s else Run(Apply(s, steps[0]), steps[1..])
  }

  const START := State(None, None, map[], 0, 0)

  ghost predicate Inv(s: State) {
    && (forall t: nat :: PhaseOf(s, t).LoggingIn? <==> s.lock == Some(t))
    && (forall t: nat | PhaseOf(s, t).Sent? :: PhaseOf(s, t).header.Some?)
    && (s.lock.Some? ==> s.token.None?)
    && s.logins <= s.resets + (if s.token.Some? then 1 else 0)
  }

  lemma ApplyKeepsInv(s: State, step: Step)
    requires Inv(s) && Enabled(s, step)
    ensures Inv(Apply(s, step))
  {
  }

  lemma {:induction false} RunKeepsInv(s: State, steps: seq<Step>)
    requires Inv(s) && Allowed(s, steps)
    ensures Inv(Run(s, steps))
    decreases steps
  {
    if steps != [] {
      ApplyKeepsInv(s, steps[0]);
      RunKeepsInv(Apply(s, steps[0]), steps[1..]);
    }
  }

  /**
   * Over every interleaving: every request carries a token, at most one task is logging in and then no token is
   * there, and successful logins never exceed one more than the token resets.
   */
  lemma TokenProtocol(steps: seq<Step>, t: nat, u: nat)
    requires Allowed(START, steps)
    ensures var s := Run(START, steps);
      && (PhaseOf(s, t).Sent? ==> PhaseOf(s, t).header.Some?)
      && (PhaseOf(s, t).LoggingIn? && PhaseOf(s, u).LoggingIn? ==> t == u)
      && (PhaseOf(s, t).LoggingIn? ==> s.token.None?)
      && s.logins <= 1 + s.resets
  {
    RunKeepsInv(START, steps);
  }

  // ----- every request comes to its end

  /** How many steps of its own a request still needs at most. */
  function StepsLeft(p: Phase): nat {
    match p case Idle => 0 case Sent(_) => 1 case LoggingIn => 2 case Waiting => 3
  }

  /** A step moves its own task only: a request that begins is under way, any other step brings one nearer its end. */
  lemma StepAdvances(s: State, step: Step, u: nat)
    requires Inv(s) && Enabled(s, step)
    ensures u != TaskOf(step) ==> PhaseOf(Apply(s, step), u) == PhaseOf(s, u)
    ensures var before, after := PhaseOf(s, TaskOf(step)), PhaseOf(Apply(s, step), TaskOf(step));
      if step.Begin? then before.Idle? && !after.Idle? && (after.Sent? <==> s.token.Some?)
      else StepsLeft(after) < StepsLeft(before)
  {
  }

  /** No deadlock: while a request is under way, some request can take a step. */
  lemma SomeoneCanStep(s: State, t: nat) returns (step: Step)
    requires Inv(s) && !PhaseOf(s, t).Idle?
    ensures Enabled(s, step) && !step.Begin?
  {
    match PhaseOf(s, t)
    case Waiting =>
      if s.lock.None? {
        step := Obtain(t);
      } else {
        assert PhaseOf(s, s.lock.value).LoggingIn?;
        step := LoginFailed(s.lock.value);
      }
    case LoggingIn => step := LoginFailed(t);
    case Sent(_) => step := Answered(t);
  }

  // ----- when a rejection clears a token it was not sent with

  ghost predicate NotRejectedFrom(steps: seq<Step>, k: nat) {
    forall i :: k <= i < |steps| ==> !steps[i].Rejected?
  }

  /** The `j`-th step is a login that brought `token`, and no rejection follows it. */
  ghost predicate LastLogin(steps: seq<Step>, j: nat, token: int) {
    j < |steps| && steps[j].LoggedIn? && steps[j].token == token && NotRejectedFrom(steps, j + 1)
  }

  lemma LastLoginInTail(steps: seq<Step>, token: int)
    requires steps != []
    ensures (exists j: nat :: LastLogin(steps, j, token)) <==>
      || (exists j: nat :: LastLogin(steps[1..], j, token))
      || (steps[0].LoggedIn? && steps[0].token == token && NotRejectedFrom(steps[1..], 0))
  {
    var rest := steps[1..];
    forall j: nat ensures LastLogin(rest, j, token) <==> LastLogin(steps, j + 1, token) {
      assert j < |rest| ==> rest[j] == steps[j + 1];
      if NotRejectedFrom(rest, j + 1) {
        forall i | j + 2 <= i < |steps| ensures !steps[i].Rejected? { assert steps[i] == rest[i - 1]; }
      }
    }
    NotRejectedTail(steps);
    if exists j: nat :: LastLogin(steps, j, token) {
      var j: nat :| LastLogin(steps, j, token);
      if j > 0 { assert LastLogin(rest, j - 1, token); }
    }
    if steps[0].LoggedIn? && steps[0].token == token && NotRejectedFrom(rest, 0) {
      assert LastLogin(steps, 0, token);
    }
  }

  lemma NotRejectedTail(steps: seq<Step>)
    requires steps != []
    ensures NotRejectedFrom(steps[1..], 0) <==> NotRejectedFrom(steps, 1)
    ensures NotRejectedFrom(steps, 0) <==> !steps[0].Rejected? && NotRejectedFrom(steps[1..], 0)
  {
    if NotRejectedFrom(steps[1..], 0) {
      forall i | 1 <= i < |steps| ensures !steps[i].Rejected? { assert steps[i] == steps[1..][i - 1]; }
    }
  }

  /** The token field holds what the last login brought, or what was there, unless a rejection came after. */
  lemma {:induction false} TokenAfter(s: State, steps: seq<Step>, token: int)
    requires Inv(s) && Allowed(s, steps)
    ensures Run(s, steps).token == Some(token) <==>
      || (exists j: nat :: LastLogin(steps, j, token))
      || (s.token == Some(token) && NotRejectedFrom(steps, 0))
    decreases steps
  {
    if steps != [] {
      var next := Apply(s, steps[0]);
      ApplyKeepsInv(s, steps[0]);
      TokenAfter(next, steps[1..], token);
      LastLoginInTail(steps, token);
      NotRejectedTail(steps);
      hide LastLogin, NotRejectedFrom;
    }
  }

  function TaskOf(step: Step): nat { step.t }

  lemma {:induction false} OthersKeepPhase(s: State, steps: seq<Step>, t: nat)
    requires Allowed(s, steps) && forall i :: 0 <= i < |steps| ==> TaskOf(steps[i]) != t
    ensures PhaseOf(Run(s, steps), t) == PhaseOf(s, t)
    decreases steps
  {
    if steps != [] {
      assert TaskOf(steps[0]) != t;
      forall i | 0 <= i < |steps| - 1 ensures TaskOf(steps[1..][i]) != t { assert steps[1..][i] == steps[i + 1]; }
      OthersKeepPhase(Apply(s, steps[0]), steps[1..], t);
    }
  }

  /**
   * A request that `first` sent is rejected after `more` steps of other tasks. It clears a token that it was not
   * sent with exactly when a login in between brought another one and no rejection followed that login.
   */
  lemma RejectionClearsOther(s: State, first: Step, more: seq<Step>)
    requires Inv(s) && Enabled(s, first) && PhaseOf(Apply(s, first), TaskOf(first)).Sent?
    requires Allowed(Apply(s, first), more) && forall i :: 0 <= i < |more| ==> TaskOf(more[i]) != TaskOf(first)
    ensures var header := PhaseOf(Apply(s, first), TaskOf(first)).header;
      var end := Run(Apply(s, first), more);
      && PhaseOf(end, TaskOf(first)) == Sent(header)
      && Apply(end, Rejected(TaskOf(first))).token == None
      && (end.token.Some? && end.token != header <==>
          exists j: nat, token :: LastLogin(more, j, token) && header != Some(token))
  {
    var sent := Apply(s, first);
    ApplyKeepsInv(s, first);
    OthersKeepPhase(sent, more, TaskOf(first));
    var end := Run(sent, more);
    forall token ensures end.token == Some(token) <==>
      (exists j: nat :: LastLogin(more, j, token)) || (sent.token == Some(token) && NotRejectedFrom(more, 0))
    {
      TokenAfter(sent, more, token);
    }
    hide LastLogin, NotRejectedFrom;
    SentWithField(s, first);
    if end.token.Some? && end.token != sent.token {
      var j: nat :| LastLogin(more, j, end.token.value);
    }
  }

  lemma SentWithField(s: State, step: Step)
    requires Enabled(s, step) && PhaseOf(Apply(s, step), TaskOf(step)).Sent?
    ensures PhaseOf(Apply(s, step), TaskOf(step)).header == Apply(s, step).token
  {
  }

  lemma {:induction false} RunSnoc(s: State, steps: seq<Step>, step: Step)
    requires Allowed(s, steps) && Enabled(Run(s, steps), step)
    ensures Allowed(s, steps + [step]) && Run(s, steps + [step]) == Apply(Run(s, steps), step)
    decreases steps
  {
    if steps == [] {
      assert [step][1..] == [];
    } else {
      RunSnoc(Apply(s, steps[0]), steps[1..], step);
      assert (steps + [step])[1..] == steps[1..] + [step];
    }
  }

  lemma After(steps: seq<Step>, step: Step) returns (more: seq<Step>)
    requires Allowed(START, steps) && Enabled(Run(START, steps), step)
    ensures Allowed(START, more) && Run(START, more) == Apply(Run(START, steps), step)
  {
    RunSnoc(START, steps, step);
    more := steps + [step];
  }

  /** A rejection drops whatever token is there: a late one, for an older token, drops a fresh token. */
  lemma LateRejectionDropsNewToken(older: int, newer: int) returns (steps: seq<Step>)
    ensures Allowed(START, steps)
    ensures var s := Run(START, steps);
      && s.token == Some(newer) && PhaseOf(s, 1) == Sent(Some(older))
      && Apply(s, Rejected(1)).token == None
  {
    hide Run, Allowed;
    steps := [];
    assert Allowed(START, steps) && Run(START, steps) == START by { Nothing(); }
    steps := After(steps, Begin(0));
    steps := After(steps, Obtain(0));
    steps := After(steps, LoggedIn(0, older));
    steps := After(steps, Begin(1));
    steps := After(steps, Rejected(0));
    steps := After(steps, Begin(0));
    steps := After(steps, Obtain(0));
    steps := After(steps, LoggedIn(0, newer));
  }

  lemma Nothing()
    ensures Allowed(START, []) && Run(START, []) == START
  {
  }
}
