/** The registry of active clients as a state machine: acquire frames and close_all calls interleave freely. */
module ClientRegistry {

  /** Where one acquire frame stands. `Closing(c)` holds the client it popped and is about to close. */
  datatype Phase = Absent | Created | InBody | Releasing | Closing(popped: nat) | Done

  /** `active` is the registry, keyed by `id()`; `sweeping` are clients snapshotted by some close_all. */
  datatype State = State(
    phase: map<nat, Phase>, key: map<nat, int>, active: map<int, nat>, sweeping: multiset<nat>, closed: map<nat, nat>)

  function PhaseOf(s: State, c: nat): Phase { if c in s.phase then s.phase[c] else Absent }

  function ClosedCount(s: State, c: nat): nat { if c in s.closed then s.closed[c] else 0 }

  predicate FrameLive(s: State, c: nat) { !PhaseOf(s, c).Absent? && !PhaseOf(s, c).Done? }

  /** An object whose identity cannot be reused yet: something still refers to it. */
  ghost predicate Referenced(s: State, c: nat) {
    || FrameLive(s, c)
    || c in s.sweeping
    || c in s.active.Values
    || exists d :: PhaseOf(s, d) == Closing(c)
  }

  ghost predicate Init(s: State) { s == State(map[], map[], map[], multiset{}, map[]) }

  datatype Step =
    | Create(c: nat, k: int)   // a client object is built; its id may be any id not in use
    | Register(c: nat)         // under the lock: enter the registry, then run the body
    | Abort(c: nat)            // the lock was never obtained: the frame closes its own client
    | ExitBody(c: nat)         // the body ends, normally or not
    | Pop(c: nat)              // under the lock: remove the frame's key from the registry
    | CloseOwn(c: nat)         // the frame closes what it popped
    | Sweep                    // close_all under the lock: snapshot and clear the registry
    | CloseSwept(c: nat)       // close_all closes one snapshotted client

  function Close(s: State, c: nat): map<nat, nat> { s.closed[c := ClosedCount(s, c) + 1] }

  ghost predicate Enabled(s: State, step: Step) {
    match step
    case Create(c, k) => PhaseOf(s, c).Absent? && forall d | Referenced(s, d) && d in s.key :: s.key[d] != k
    case Register(c) => PhaseOf(s, c).Created? && c in s.key
    case Abort(c) => PhaseOf(s, c).Created?
    case ExitBody(c) => PhaseOf(s, c).InBody?
    case Pop(c) => PhaseOf(s, c).Releasing? && c in s.key
    case CloseOwn(c) => PhaseOf(s, c).Closing?
    case Sweep => true
    case CloseSwept(c) => c in s.sweeping
  }

  ghost function Values(active: map<int, nat>): multiset<nat>
    decreases |active|
  {
    if active == map[] then multiset{}
    else
      var k := AnyKey(active);
      multiset{active[k]} + Values(active - {k})
  }

  ghost function AnyKey<K, V>(active: map<K, V>): (k: K)
    requires active != map[]
    ensures k in active
  {
    assert active.Keys != {};
    var k :| k in active.Keys; k
  }

  ghost function Apply(s: State, step: Step): State
    requires Enabled(s, step)
  {
    match step
    case Create(c, k) => s.(phase := s.phase[c := Created], key := s.key[c := k])
    case Register(c) => s.(phase := s.phase[c := InBody], active := s.active[s.key[c] := c])
    case Abort(c) => s.(phase := s.phase[c := Closing(c)])
    case ExitBody(c) => s.(phase := s.phase[c := Releasing])
    case Pop(c) =>
      if s.key[c] in s.active
      then s.(phase := s.phase[c := Closing(s.active[s.key[c]])], active := s.active - {s.key[c]})
      else s.(phase := s.phase[c := Done])
    case CloseOwn(c) => s.(phase := s.phase[c := Done], closed := Close(s, PhaseOf(s, c).popped))
    case Sweep => s.(sweeping := s.sweeping + Values(s.active), active := map[])
    case CloseSwept(c) => s.(sweeping := s.sweeping - multiset{c}, closed := Close(s, c))
  }

  // ----- the invariant

  predicate Registered(s: State, c: nat) { c in s.key && s.key[c] in s.active && s.active[s.key[c]] == c }

  /** Close calls made or still owed for a client by close_all. */
  function SweptCount(s: State, c: nat): nat { ClosedCount(s, c) + s.sweeping[c] }

  /** Exactly one party is responsible for closing each client. */
  predicate Owned(s: State, c: nat) {
    match PhaseOf(s, c)
    case Absent => SweptCount(s, c) == 0 && !Registered(s, c)
    case Created => SweptCount(s, c) == 0 && !Registered(s, c) && c in s.key
    case InBody => SweptCount(s, c) == (if Registered(s, c) then 0 else 1) && c in s.key
    case Releasing => SweptCount(s, c) == (if Registered(s, c) then 0 else 1) && c in s.key
    case Closing(d) => d == c && SweptCount(s, c) == 0 && !Registered(s, c)
    case Done => SweptCount(s, c) == 1 && !Registered(s, c)
  }

  ghost predicate Inv(s: State) {
    && (forall c :: Owned(s, c))
    && (forall k | k in s.active :: s.active[k] in s.key && s.key[s.active[k]] == k)
    && (forall c, d | FrameLive(s, c) && FrameLive(s, d) && c != d && c in s.key && d in s.key :: s.key[c] != s.key[d])
  }

  lemma {:induction false} ValuesCount(active: map<int, nat>, keyOf: map<nat, int>, c: nat)
    requires forall k | k in active :: active[k] in keyOf && keyOf[active[k]] == k
    ensures Values(active)[c] == if c in keyOf && keyOf[c] in active && active[keyOf[c]] == c then 1 else 0
    decreases |active|
  {
    if active != map[] {
      var k := AnyKey(active);
      var rest := active - {k};
      ValuesCount(rest, keyOf, c);
    }
  }

  lemma InvStep(s: State, step: Step)
    requires Inv(s) && Enabled(s, step)
    ensures Inv(Apply(s, step))
  {
    var t := Apply(s, step);
    match step
    case Create(c, k) => InvCreate(s, c, k);
    case Register(c) => InvRegister(s, c);
    case Abort(c) => InvLocal(s, step, c);
    case ExitBody(c) => InvLocal(s, step, c);
    case Pop(c) => InvPop(s, c);
    case CloseOwn(c) => InvLocal(s, step, c);
    case Sweep =>
      forall c ensures Owned(t, c) {
        ValuesCount(s.active, s.key, c);
        assert Owned(s, c);
      }
    case CloseSwept(c) => InvLocal(s, step, c);
  }

  lemma InvLocal(s: State, step: Step, c: nat)
    requires Inv(s) && Enabled(s, step)
    requires step == Abort(c) || step == ExitBody(c) || step == CloseOwn(c) || step == CloseSwept(c)
    ensures Inv(Apply(s, step))
  {
    var t := Apply(s, step);
    forall d ensures Owned(t, d) {
      assert Owned(s, d) && Owned(s, c);
    }
    forall d | FrameLive(t, d) ensures FrameLive(s, d) {}
  }

  lemma InvCreate(s: State, c: nat, k: int)
    requires Inv(s) && Enabled(s, Create(c, k))
    ensures Inv(Apply(s, Create(c, k)))
  {
    var t := Apply(s, Create(c, k));
    assert Owned(s, c);
    forall j | j in s.active ensures s.active[j] != c && j != k {
      var d := s.active[j];
      assert d in s.active.Values && Referenced(s, d);
      assert d != c || Registered(s, c);
    }
    forall d ensures Owned(t, d) { assert Owned(s, d); }
    forall d | FrameLive(s, d) && d in s.key ensures s.key[d] != k { assert Referenced(s, d); }
  }

  /** A live frame's key is registered for its own client or not at all. */
  lemma KeyIsOwn(s: State, c: nat)
    requires Inv(s) && FrameLive(s, c) && c in s.key && s.key[c] in s.active
    ensures s.active[s.key[c]] == c
  {
    var d := s.active[s.key[c]];
    assert Registered(s, d) && Owned(s, d);
  }

  lemma InvRegister(s: State, c: nat)
    requires Inv(s) && Enabled(s, Register(c))
    ensures Inv(Apply(s, Register(c)))
  {
    var t := Apply(s, Register(c));
    assert Owned(s, c);
    if s.key[c] in s.active { KeyIsOwn(s, c); }
    forall d ensures Owned(t, d) { assert Owned(s, d); }
    forall d | FrameLive(t, d) ensures FrameLive(s, d) {}
  }

  lemma InvPop(s: State, c: nat)
    requires Inv(s) && Enabled(s, Pop(c))
    ensures Inv(Apply(s, Pop(c)))
  {
    var t := Apply(s, Pop(c));
    assert Owned(s, c);
    if s.key[c] in s.active { KeyIsOwn(s, c); }
    forall d ensures Owned(t, d) { assert Owned(s, d); }
    forall d | FrameLive(t, d) ensures FrameLive(s, d) {}
  }

  /** How far a frame has come. */
  function Progress(p: Phase): nat {
    match p case Absent => 0 case Created => 1 case InBody => 2 case Releasing => 3 case Closing(_) => 4 case Done => 5
  }

  /** The frame that a step belongs to; the steps of close_all belong to none. */
  predicate StepOf(step: Step, c: nat) { !step.Sweep? && !step.CloseSwept? && step.c == c }

  /** Each step brings its frame further, so a frame ends after five steps, and moves no other frame. */
  lemma StepAdvances(s: State, step: Step, c: nat)
    requires Inv(s) && Enabled(s, step)
    ensures StepOf(step, c) ==> Progress(PhaseOf(s, c)) < Progress(PhaseOf(Apply(s, step), c))
    ensures !StepOf(step, c) ==> PhaseOf(Apply(s, step), c) == PhaseOf(s, c)
  {
  }

  // ----- whole runs

  ghost predicate IsRun(states: seq<State>, steps: seq<Step>) {
    && |states| == |steps| + 1 && Init(states[0])
    && forall i :: 0 <= i < |steps| ==> Enabled(states[i], steps[i]) && states[i + 1] == Apply(states[i], steps[i])
  }

  lemma {:induction false} RunKeepsInv(states: seq<State>, steps: seq<Step>, i: nat)
    requires IsRun(states, steps) && i < |states|
    ensures Inv(states[i])
  {
    if i > 0 {
      RunKeepsInv(states, steps, i - 1);
      InvStep(states[i - 1], steps[i - 1]);
    }
  }

  /** No frame is open and no close_all is still closing. */
  ghost predicate Quiescent(s: State) {
    s.sweeping == multiset{} && forall c :: !FrameLive(s, c)
  }

  /** Under any interleaving no client is closed twice, and at quiescence each was closed exactly once. */
  lemma ClosedExactlyOnce(states: seq<State>, steps: seq<Step>, i: nat, c: nat)
    requires IsRun(states, steps) && i < |states|
    ensures ClosedCount(states[i], c) <= 1
    ensures Quiescent(states[i]) ==> ClosedCount(states[i], c) == if PhaseOf(states[i], c).Absent? then 0 else 1
    ensures Quiescent(states[i]) ==> states[i].active == map[]
  {
    RunKeepsInv(states, steps, i);
    var s := states[i];
    assert Owned(s, c);
    if Quiescent(s) {
      assert s.sweeping[c] == 0 && !FrameLive(s, c);
      NothingRegistered(s);
    }
  }

  lemma NothingRegistered(s: State)
    requires Inv(s) && Quiescent(s)
    ensures s.active == map[]
  {
    forall k | k in s.active ensures FrameLive(s, s.active[k]) {
      assert Registered(s, s.active[k]) && Owned(s, s.active[k]);
    }
    assert s.active.Keys == {};
  }
}
