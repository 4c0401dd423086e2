/** Units of work shared by nested use cases: who opens, commits and closes the session. */
module Transactions {
  import opened CatalogModels

  /** A unit of work: its session, and whether the next exit must leave it open. */
  datatype UnitOfWork = UnitOfWork(session: Option<int>, reuse: bool)

  datatype Event = Opened(s: int) | Worked(on: Option<int>) | Committed(s: int) | RolledBack(s: int) | Closed(s: int)

  /** Units by id, the next session to create, and what reached the database. */
  datatype World = World(units: map<int, UnitOfWork>, next: int, events: seq<Event>)

  /** A decorated call: its unit, the units it lists for reuse, and what its body does. */
  datatype Call = Call(unit: int, listed: seq<int>, readOnly: bool, commitFails: bool, body: seq<Action>)

  datatype Action = Work | Raise | Invoke(call: Call, catches: bool)

  function UnitOf(w: World, u: int): UnitOfWork { if u in w.units then w.units[u] else UnitOfWork(None, false) }

  function SessionOf(w: World, u: int): Option<int> { UnitOf(w, u).session }

  function SetUnit(w: World, u: int, x: UnitOfWork): World { w.(units := w.units[u := x]) }

  function Log(w: World, events: seq<Event>): World { w.(events := w.events + events) }

  /** `__aenter__`: a session is created unless one is there to be reused. */
  function Enter(w: World, u: int): World {
    if SessionOf(w, u).None? || !UnitOf(w, u).reuse
    then Log(SetUnit(w, u, UnitOf(w, u).(session := Some(w.next))), [Opened(w.next)]).(next := w.next + 1)
    else w
  }

  /** `__aexit__`: an owned session is rolled back on error and closed; the flag is always cleared. */
  function Exit(w: World, u: int, raised: bool): World {
    var x := UnitOf(w, u);
    if !x.reuse && x.session.Some?
    then
      var rollback := if raised then [RolledBack(x.session.value)] else [];
      Log(SetUnit(w, u, UnitOfWork(None, false)), rollback + [Closed(x.session.value)])
    else SetUnit(w, u, x.(reuse := false))
  }

  function SetSessions(w: World, session: Option<int>, listed: seq<int>): World {
    if listed == [] then w
    else
      var before := SetSessions(w, session, listed[..|listed| - 1]);
      var l := listed[|listed| - 1];
      SetUnit(before, l, UnitOf(before, l).(session := session))
  }

  /** Runs one decorated call; the flag says whether an exception escapes. */
  function RunCall(w: World, c: Call): (World, bool)
    decreases c, 0
  {
    if SessionOf(w, c.unit).None? then
      var entered := Enter(w, c.unit);
      var (done, raised) := RunBody(SetSessions(entered, SessionOf(entered, c.unit), c.listed), c.unit, c.body);
      if raised then (Exit(done, c.unit, true), true)
      else if c.readOnly || SessionOf(done, c.unit).None? then (Exit(done, c.unit, false), false)
      else if c.commitFails then (Exit(done, c.unit, true), true)
      else (Exit(Log(done, [Committed(SessionOf(done, c.unit).value)]), c.unit, false), false)
    else
      var entered := Enter(SetUnit(w, c.unit, UnitOf(w, c.unit).(reuse := true)), c.unit);
      var (done, raised) := RunBody(SetSessions(entered, SessionOf(entered, c.unit), c.listed), c.unit, c.body);
      (Exit(done, c.unit, raised), raised)
  }

  function RunBody(w: World, unit: int, body: seq<Action>): (World, bool)
    decreases body, 1
  {
    if body == [] then (w, false)
    else
      var (done, raised) := RunAction(w, unit, body[0]);
      if raised then (done, true) else RunBody(done, unit, body[1..])
  }

  function RunAction(w: World, unit: int, action: Action): (World, bool)
    decreases action, 0
  {
    match action
    case Work => (Log(w, [Worked(SessionOf(w, unit))]), false)
    case Raise => (w, true)
    case Invoke(call, catches) =>
      var (done, raised) := RunCall(w, call);
      (done, raised && !catches)
  }

  // ----- the hypotheses: nested units are listed, and no unit is entered again below itself

  ghost function Units(c: Call): set<int>
    decreases c, 0
  {
    {c.unit} + BodyUnits(c.body)
  }

  ghost function BodyUnits(body: seq<Action>): set<int>
    decreases body, 1
  {
    if body == [] then {}
    else ActionUnits(body[0]) + BodyUnits(body[1..])
  }

  ghost function ActionUnits(action: Action): set<int>
    decreases action, 0
  {
    if action.Invoke? then Units(action.call) else {}
  }

  ghost predicate WellNested(c: Call)
    decreases c, 0
  {
    c.unit !in BodyUnits(c.body) && BodyWellNested(c.listed, c.body)
  }

  ghost predicate BodyWellNested(listed: seq<int>, body: seq<Action>)
    decreases body, 1
  {
    body == [] || (ActionWellNested(listed, body[0]) && BodyWellNested(listed, body[1..]))
  }

  ghost predicate ActionWellNested(listed: seq<int>, action: Action)
    decreases action, 0
  {
    action.Invoke? ==> action.call.unit in listed && WellNested(action.call)
  }

  // ----- what a call tree does, told from the tree alone

  /** An exception escapes: a raise, or a call that lets one escape and is not caught. */
  ghost predicate BodyEscapes(body: seq<Action>)
    decreases body, 1
  {
    body != [] && (ActionEscapes(body[0]) || BodyEscapes(body[1..]))
  }

  ghost predicate ActionEscapes(action: Action)
    decreases action, 0
  {
    action.Raise? || (action.Invoke? && !action.catches && BodyEscapes(action.call.body))
  }

  /** The work done, nested calls included; nothing after an escaping action is done. */
  ghost function BodyWork(body: seq<Action>): nat
    decreases body, 1
  {
    if body == [] then 0
    else ActionWork(body[0]) + if ActionEscapes(body[0]) then 0 else BodyWork(body[1..])
  }

  ghost function ActionWork(action: Action): nat
    decreases action, 0
  {
    match action
    case Work => 1
    case Raise => 0
    case Invoke(call, _) => BodyWork(call.body)
  }

  /** A call that owns its session fails when an exception escapes its body or its commit fails. */
  ghost predicate Fails(c: Call) { BodyEscapes(c.body) || (!c.readOnly && c.commitFails) }

  // ----- what a nested run changes

  ghost function WorkEvents(s: int, n: nat): seq<Event> { seq(n, _ => Worked(Some(s))) }

  /** Work on session `s`, `n` times: no session opened, committed or closed, and sessions only become `s`. */
  ghost predicate WorksIn(w: World, v: World, s: int, n: nat) {
    && v.events == w.events + WorkEvents(s, n)
    && v.next == w.next
    && forall u :: SessionOf(v, u) == SessionOf(w, u) || SessionOf(v, u) == Some(s)
  }

  ghost predicate FlagsKept(w: World, v: World, except: set<int>) {
    forall u | u !in except :: UnitOf(v, u).reuse == UnitOf(w, u).reuse
  }

  lemma WorksInTransitive(w: World, v: World, x: World, s: int, m: nat, n: nat)
    requires WorksIn(w, v, s, m) && WorksIn(v, x, s, n)
    ensures WorksIn(w, x, s, m + n)
  {
    assert WorkEvents(s, m) + WorkEvents(s, n) == WorkEvents(s, m + n);
  }

  lemma {:induction false} SetSessionsMeaning(w: World, s: int, listed: seq<int>)
    ensures WorksIn(w, SetSessions(w, Some(s), listed), s, 0) && FlagsKept(w, SetSessions(w, Some(s), listed), {})
    ensures forall u | u in listed :: SessionOf(SetSessions(w, Some(s), listed), u) == Some(s)
    ensures forall u | u !in listed :: SessionOf(SetSessions(w, Some(s), listed), u) == SessionOf(w, u)
  {
    if listed != [] {
      SetSessionsMeaning(w, s, listed[..|listed| - 1]);
      assert listed == listed[..|listed| - 1] + [listed[|listed| - 1]];
    }
  }

  /** A call that finds a session in its unit only works in it, leaves its own flag cleared, and passes errors on. */
  lemma {:induction false} NestedOnlyWorks(w: World, c: Call, s: int)
    requires SessionOf(w, c.unit) == Some(s) && WellNested(c)
    ensures WorksIn(w, RunCall(w, c).0, s, BodyWork(c.body))
    ensures RunCall(w, c).1 <==> BodyEscapes(c.body)
    ensures FlagsKept(w, RunCall(w, c).0, Units(c))
    decreases c, 0
  {
    hide WorksIn, FlagsKept, BodyEscapes, BodyWork;
    var flagged := SetUnit(w, c.unit, UnitOf(w, c.unit).(reuse := true));
    var started := SetSessions(flagged, Some(s), c.listed);
    var n := BodyWork(c.body);
    FlagOnly(w, c.unit, true, s);
    SetSessionsMeaning(flagged, s, c.listed);
    var (done, raised) := RunBody(started, c.unit, c.body);
    assert SessionOf(started, c.unit) == Some(s) by { if c.unit !in c.listed {} }
    BodyOnlyWorks(started, c.unit, c.listed, c.body, s);
    WorksInTransitive(w, flagged, started, s, 0, 0);
    WorksInTransitive(w, started, done, s, 0, n);
    FlagStillSet(flagged, started, done, c);
    FlagOnly(done, c.unit, false, s);
    WorksInTransitive(w, done, SetUnit(done, c.unit, UnitOf(done, c.unit).(reuse := false)), s, n, 0);
    FlagsElsewhere(w, flagged, started, done, c);
  }

  lemma FlagOnly(w: World, u: int, reuse: bool, s: int)
    ensures WorksIn(w, SetUnit(w, u, UnitOf(w, u).(reuse := reuse)), s, 0)
  {
  }

  lemma FlagStillSet(flagged: World, started: World, done: World, c: Call)
    requires WellNested(c) && UnitOf(flagged, c.unit).reuse
    requires FlagsKept(flagged, started, {}) && FlagsKept(started, done, BodyUnits(c.body))
    ensures UnitOf(done, c.unit).reuse
  {
  }

  lemma FlagsElsewhere(w: World, flagged: World, started: World, done: World, c: Call)
    requires flagged == SetUnit(w, c.unit, UnitOf(w, c.unit).(reuse := true))
    requires FlagsKept(flagged, started, {}) && FlagsKept(started, done, BodyUnits(c.body))
    ensures FlagsKept(w, SetUnit(done, c.unit, UnitOf(done, c.unit).(reuse := false)), Units(c))
  {
  }

  lemma {:induction false} BodyOnlyWorks(w: World, unit: int, listed: seq<int>, body: seq<Action>, s: int)
    requires SessionOf(w, unit) == Some(s) && (forall l | l in listed :: SessionOf(w, l) == Some(s))
    requires BodyWellNested(listed, body)
    ensures WorksIn(w, RunBody(w, unit, body).0, s, BodyWork(body))
    ensures RunBody(w, unit, body).1 <==> BodyEscapes(body)
    ensures FlagsKept(w, RunBody(w, unit, body).0, BodyUnits(body))
    ensures SessionOf(RunBody(w, unit, body).0, unit) == Some(s)
    decreases body, 1
  {
    if body != [] {
      ActionOnlyWorks(w, unit, listed, body[0], s);
      var (v, raised) := RunAction(w, unit, body[0]);
      if !raised {
        BodyOnlyWorks(v, unit, listed, body[1..], s);
        WorksInTransitive(w, v, RunBody(v, unit, body[1..]).0, s, ActionWork(body[0]), BodyWork(body[1..]));
      }
    }
  }

  lemma {:induction false} ActionOnlyWorks(w: World, unit: int, listed: seq<int>, action: Action, s: int)
    requires SessionOf(w, unit) == Some(s) && ActionWellNested(listed, action)
    requires forall l | l in listed :: SessionOf(w, l) == Some(s)
    ensures WorksIn(w, RunAction(w, unit, action).0, s, ActionWork(action))
    ensures RunAction(w, unit, action).1 <==> ActionEscapes(action)
    ensures FlagsKept(w, RunAction(w, unit, action).0, ActionUnits(action))
    decreases action, 0
  {
    if action.Invoke? { NestedOnlyWorks(w, action.call, s); }
  }

  // ----- the outermost call

  /** How the session of the outermost call ends. */
  function Ending(s: int, raised: bool, committed: bool): seq<Event> {
    (if committed then [Committed(s)] else []) + (if raised then [RolledBack(s)] else []) + [Closed(s)]
  }

  /** What a call that owns its session leaves in the database. */
  ghost function OwnEvents(c: Call, s: int): seq<Event> {
    [Opened(s)] + WorkEvents(s, BodyWork(c.body)) + Ending(s, Fails(c), !Fails(c) && !c.readOnly)
  }

  /**
   * The outermost call opens one session, everything below works in it, and it ends in a single close: after one
   * commit when it succeeds and writes, after a rollback when an exception escapes its body or its commit fails.
   */
  lemma OutermostOwns(w: World, c: Call)
    requires SessionOf(w, c.unit).None? && !UnitOf(w, c.unit).reuse && WellNested(c)
    ensures RunCall(w, c).1 <==> Fails(c)
    ensures var v := RunCall(w, c).0;
      && v.events == w.events + OwnEvents(c, w.next)
      && v.next == w.next + 1 && SessionOf(v, c.unit).None? && !UnitOf(v, c.unit).reuse
      && (forall l | l in c.listed && l != c.unit :: SessionOf(v, l) == Some(w.next))
  {
    hide BodyWork, BodyEscapes;
    var s, n := w.next, BodyWork(c.body);
    var entered := Enter(w, c.unit);
    var started := SetSessions(entered, Some(s), c.listed);
    SetSessionsMeaning(entered, s, c.listed);
    BodyOnlyWorks(started, c.unit, c.listed, c.body, s);
    var (done, raised) := RunBody(started, c.unit, c.body);
    assert WorkEvents(s, 0) == [];
    assert done.events == w.events + ([Opened(s)] + WorkEvents(s, n));
    assert !UnitOf(done, c.unit).reuse;
    AssociateEnding(w.events, [Opened(s)] + WorkEvents(s, n), s);
  }

  lemma AssociateEnding(w: seq<Event>, own: seq<Event>, s: int)
    ensures ((w + own) + [Committed(s)]) + ([] + [Closed(s)]) == w + (own + Ending(s, false, true))
    ensures (w + own) + ([] + [Closed(s)]) == w + (own + Ending(s, false, false))
    ensures (w + own) + ([RolledBack(s)] + [Closed(s)]) == w + (own + Ending(s, true, false))
  {
  }

  /**
   * Afterwards the listed units still hold the closed session, so a later call of theirs opens nothing,
   * commits nothing, and works on that closed session.
   */
  lemma LaterCallWorksOnClosedSession(w: World, c: Call, later: Call)
    requires SessionOf(w, c.unit).None? && !UnitOf(w, c.unit).reuse && WellNested(c)
    requires later.unit in c.listed && later.unit != c.unit && WellNested(later)
    ensures Closed(w.next) in RunCall(w, c).0.events
    ensures WorksIn(RunCall(w, c).0, RunCall(RunCall(w, c).0, later).0, w.next, BodyWork(later.body))
  {
    hide RunCall, BodyWork, WorksIn, WellNested, Fails;
    OutermostOwns(w, c);
    ClosedInOwn(c, w.next);
    NestedOnlyWorks(RunCall(w, c).0, later, w.next);
  }

  lemma ClosedInOwn(c: Call, s: int)
    ensures Closed(s) in OwnEvents(c, s)
  {
    hide Fails, BodyWork;
    assert Closed(s) in Ending(s, Fails(c), !Fails(c) && !c.readOnly);
  }

  /** The units that some call of the tree belongs to or lists. */
  ghost function Touched(c: Call): set<int>
    decreases c, 0
  {
    {c.unit} + (set l | l in c.listed) + BodyTouched(c.body)
  }

  ghost function BodyTouched(body: seq<Action>): set<int>
    decreases body, 1
  {
    if body == [] then {} else ActionTouched(body[0]) + BodyTouched(body[1..])
  }

  ghost function ActionTouched(action: Action): set<int>
    decreases action, 0
  {
    if action.Invoke? then Touched(action.call) else {}
  }

  lemma {:induction false} SetSessionsElsewhere(w: World, session: Option<int>, listed: seq<int>, u: int)
    requires u !in listed
    ensures UnitOf(SetSessions(w, session, listed), u) == UnitOf(w, u)
  {
    if listed != [] {
      assert listed == listed[..|listed| - 1] + [listed[|listed| - 1]];
      SetSessionsElsewhere(w, session, listed[..|listed| - 1], u);
    }
  }

  /** A call leaves alone every unit that its tree nowhere mentions. */
  lemma {:induction false} UntouchedKept(w: World, c: Call, u: int)
    requires u !in Touched(c)
    ensures UnitOf(RunCall(w, c).0, u) == UnitOf(w, u)
    decreases c, 0
  {
    var owns := SessionOf(w, c.unit).None?;
    var entered := Enter(if owns then w else SetUnit(w, c.unit, UnitOf(w, c.unit).(reuse := true)), c.unit);
    var started := SetSessions(entered, SessionOf(entered, c.unit), c.listed);
    SetSessionsElsewhere(entered, SessionOf(entered, c.unit), c.listed, u);
    BodyUntouched(started, c.unit, c.body, u);
  }

  lemma {:induction false} BodyUntouched(w: World, unit: int, body: seq<Action>, u: int)
    requires u !in BodyTouched(body)
    ensures UnitOf(RunBody(w, unit, body).0, u) == UnitOf(w, u)
    decreases body, 1
  {
    if body != [] {
      ActionUntouched(w, unit, body[0], u);
      BodyUntouched(RunAction(w, unit, body[0]).0, unit, body[1..], u);
    }
  }

  lemma {:induction false} ActionUntouched(w: World, unit: int, action: Action, u: int)
    requires u !in ActionTouched(action)
    ensures UnitOf(RunAction(w, unit, action).0, u) == UnitOf(w, u)
    decreases action, 0
  {
    if action.Invoke? { UntouchedKept(w, action.call, u); }
  }

  /** A call opens a session of its own, and that session ends with the call. */
  ghost predicate OwnsSession(v: World, later: Call) {
    RunCall(v, later).0.events == v.events + OwnEvents(later, v.next)
  }

  /**
   * When nested calls mention only units the outer call lists, a later call of a unit that had no session before
   * owns its transaction exactly when the outer call did not list that unit.
   */
  lemma LaterCallOwnsExactly(w: World, c: Call, later: Call)
    requires SessionOf(w, c.unit).None? && !UnitOf(w, c.unit).reuse && WellNested(c) && WellNested(later)
    requires later.unit != c.unit && SessionOf(w, later.unit).None? && !UnitOf(w, later.unit).reuse
    requires forall u | u in Touched(c) :: u == c.unit || u in c.listed
    ensures OwnsSession(RunCall(w, c).0, later) <==> later.unit !in c.listed
  {
    hide RunCall, BodyWork, WellNested, Fails;
    var v := RunCall(w, c).0;
    if later.unit in c.listed {
      LaterCallWorksOnClosedSession(w, c, later);
      WorkIsNotOwn(later, w.next, v.next, BodyWork(later.body));
      assert RunCall(v, later).0.events == v.events + WorkEvents(w.next, BodyWork(later.body));
    } else {
      UntouchedKept(w, c, later.unit);
      OutermostOwns(v, later);
    }
  }

  lemma WorkIsNotOwn(later: Call, s: int, own: int, n: nat)
    ensures WorkEvents(s, n) != OwnEvents(later, own)
    ensures forall events: seq<Event> :: events + WorkEvents(s, n) != events + OwnEvents(later, own)
  {
    hide Fails, BodyWork;
    assert OwnEvents(later, own)[0] == Opened(own);
    forall events: seq<Event> ensures events + WorkEvents(s, n) != events + OwnEvents(later, own) {
      if n > 0 { assert (events + WorkEvents(s, n))[|events|] == Worked(Some(s)); }
      assert (events + OwnEvents(later, own))[|events|] == Opened(own);
    }
  }

  /** Both hypotheses are needed: an unlisted unit commits its own session although the outer call fails. */
  lemma UnlistedUnitCommitsAlone(outer: int, inner: int)
    requires outer != inner
    ensures var c := Call(outer, [], false, false, [Invoke(Call(inner, [], false, false, [Work]), false), Raise]);
      RunCall(World(map[], 0, []), c).1 && Committed(1) in RunCall(World(map[], 0, []), c).0.events
  {
    var start := World(map[], 0, []);
    var nested := Call(inner, [], false, false, [Work]);
    var c := Call(outer, [], false, false, [Invoke(nested, false), Raise]);
    var entered := Enter(start, outer);
    assert SetSessions(entered, Some(0), []) == entered && SessionOf(entered, inner) == None;
    var v := Enter(entered, inner);
    assert RunBody(v, inner, [Work]) == (Log(v, [Worked(Some(1))]), false) by { assert [Work][1..] == []; }
    var (after, raised) := RunCall(entered, nested);
    assert after.events == [Opened(0), Opened(1), Worked(Some(1)), Committed(1), Closed(1)] && !raised;
    assert c.body[1..] == [Raise];
    assert RunBody(after, outer, [Raise]) == (after, true);
    assert RunAction(entered, outer, c.body[0]) == (after, false);
    assert RunBody(entered, outer, c.body) == (after, true);
    assert Committed(1) == after.events[3];
  }

  /** A listed unit entered again below itself loses its flag, and its exit closes the shared session early. */
  lemma ReenteredUnitClosesEarly(w: World, unit: int, s: int)
    requires SessionOf(w, unit) == Some(s)
    ensures var again := Call(unit, [], false, false, []);
      var v := RunCall(w, Call(unit, [], false, false, [Invoke(again, false)])).0;
      v.events == w.events + [Closed(s)] && SessionOf(v, unit).None?
  {
    var again := Call(unit, [], false, false, []);
    var flagged := SetUnit(w, unit, UnitOf(w, unit).(reuse := true));
    var v := SetUnit(flagged, unit, UnitOf(w, unit).(reuse := false));
    assert Enter(flagged, unit) == flagged && SetUnit(flagged, unit, UnitOf(flagged, unit)) == flagged;
    assert RunCall(flagged, again) == (v, false);
    var body := [Invoke(again, false)];
    assert RunAction(flagged, unit, body[0]) == (v, false);
    assert RunBody(v, unit, body[1..]) == (v, false);
    assert RunBody(flagged, unit, body) == (v, false);
    assert Exit(v, unit, false).events == w.events + [Closed(s)];
  }

  // ----- the decorator as it changes the shared units

  /** The running program: the units of work of all use cases, and the database they talk to. */
  class Runtime {
    var units: map<int, UnitOfWork>
    var next: int
    var events: seq<Event>

    constructor ()
      ensures State() == World(map[], 0, [])
    {
      units, next, events := map[], 0, [];
    }

    function State(): World reads this { World(units, next, events) }

    method EnterUnit(u: int)
      modifies this
      ensures State() == Enter(old(State()), u)
    {
      var x := UnitOf(State(), u);
      if x.session.None? || !x.reuse {
        units := units[u := x.(session := Some(next))];
        events := events + [Opened(next)];
        next := next + 1;
      }
    }

    method ExitUnit(u: int, raised: bool)
      modifies this
      ensures State() == Exit(old(State()), u, raised)
    {
      var x := UnitOf(State(), u);
      if !x.reuse && x.session.Some? {
        if raised { events := events + [RolledBack(x.session.value)]; }
        events := events + [Closed(x.session.value)];
        x := x.(session := None);
      }
      units := units[u := x.(reuse := false)];
    }

    method SetNestedSessions(owner: int, listed: seq<int>)
      modifies this
      ensures State() == SetSessions(old(State()), SessionOf(old(State()), owner), listed)
    {
      var session := SessionOf(State(), owner);
      for i := 0 to |listed|
        invariant State() == SetSessions(old(State()), session, listed[..i])
      {
        assert listed[..i + 1][..i] == listed[..i];
        units := units[listed[i] := UnitOf(State(), listed[i]).(session := session)];
      }
      assert listed[..|listed|] == listed;
    }

    method Transactional(c: Call) returns (raised: bool)
      modifies this
      ensures (State(), raised) == RunCall(old(State()), c)
      decreases c, 0
    {
      var owns := SessionOf(State(), c.unit).None?;
      if !owns { units := units[c.unit := UnitOf(State(), c.unit).(reuse := true)]; }
      EnterUnit(c.unit);
      SetNestedSessions(c.unit, c.listed);
      raised := Perform(c.unit, c.body);
      if owns && !raised && !c.readOnly {
        var session := SessionOf(State(), c.unit);
        if session.Some? {
          if c.commitFails { raised := true; }
          else { events := events + [Committed(session.value)]; }
        }
      }
      ExitUnit(c.unit, raised);
    }

    method Perform(unit: int, body: seq<Action>) returns (raised: bool)
      modifies this
      ensures (State(), raised) == RunBody(old(State()), unit, body)
      decreases body, 1
    {
      raised := false;
      for i := 0 to |body|
        invariant !raised && RunBody(State(), unit, body[i..]) == RunBody(old(State()), unit, body)
      {
        assert body[i..][0] == body[i] && body[i..][1..] == body[i + 1..];
        raised := Act(unit, body[i]);
        if raised { return; }
      }
    }

    method Act(unit: int, action: Action) returns (raised: bool)
      modifies this
      ensures (State(), raised) == RunAction(old(State()), unit, action)
      decreases action, 0
    {
      match action
      case Work =>
        events := events + [Worked(SessionOf(State(), unit))];
        raised := false;
      case Raise => raised := true;
      case Invoke(call, catches) =>
        raised := Transactional(call);
        raised := raised && !catches;
    }
  }
}
