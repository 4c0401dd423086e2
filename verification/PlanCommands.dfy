/** The prepare and push commands when nothing interrupts them, and the steps of which they consist. */
module PlanCommands {
  import opened CatalogModels
  import opened Rules
  import opened Comparer
  import opened PolicyGateway
  import opened PlanSteps

  datatype PushError = PlanNotFound | AlreadyPushed | NothingToPush | GuardFailed | TargetNotFound

  predicate Within(rows: seq<PlanRow>, at: seq<nat>) { forall i :: 0 <= i < |at| ==> at[i] < |rows| }

  /** The rules at some positions of a plan, as the gateway gets them. */
  function RulesAt(rows: seq<PlanRow>, at: seq<nat>): (r: seq<PlanRule>)
    requires Within(rows, at)
    ensures |r| == |at|
  {
    seq(|at|, i requires 0 <= i < |at| => PlanRule(at[i], rows[at[i]].draft))
  }

  function RepliesAt(reply: nat -> Reply, at: seq<nat>): (r: seq<Reply>)
    ensures |r| == |at|
  {
    seq(|at|, i requires 0 <= i < |at| => reply(at[i]))
  }

  function Outcomes(replies: seq<Reply>): (r: seq<RowStatus>)
    ensures |r| == |replies|
  {
    seq(|replies|, i requires 0 <= i < |replies| => OutcomeOf(replies[i]))
  }

  /** A plan's rows after the outcomes of some of them were stored. */
  function Recorded(rows: seq<PlanRow>, at: seq<nat>, outcomes: seq<RowStatus>): (r: seq<PlanRow>)
    requires Within(rows, at) && |outcomes| == |at|
    ensures |r| == |rows|
  {
    if at == [] then rows
    else
      var n := |at| - 1;
      var before := Recorded(rows, at[..n], outcomes[..n]);
      before[at[n] := before[at[n]].(status := outcomes[n])]
  }

  /** Recording sets the status of each listed row to its outcome and leaves everything else as it is. */
  lemma {:induction false} RecordedMeaning(rows: seq<PlanRow>, at: seq<nat>, outcomes: seq<RowStatus>)
    requires Within(rows, at) && |outcomes| == |at| && forall i, j :: 0 <= i < j < |at| ==> at[i] < at[j]
    ensures forall i :: 0 <= i < |at| ==> Recorded(rows, at, outcomes)[at[i]] == rows[at[i]].(status := outcomes[i])
    ensures forall k: nat :: k < |rows| && k !in at ==> Recorded(rows, at, outcomes)[k] == rows[k]
  {
    if at != [] {
      var n := |at| - 1;
      RecordedMeaning(rows, at[..n], outcomes[..n]);
      assert at == at[..n] + [at[n]];
      assert at[n] !in at[..n];
    }
  }

  /** The plan after a push that ran through: the rows sent got their outcomes, and nothing else changed. */
  ghost predicate OutcomesStored(before: seq<PlanRow>, after: seq<PlanRow>, at: seq<nat>, results: seq<PushResult>) {
    && |after| == |before| && |results| == |at| && Within(before, at)
    && (forall k: nat :: k < |before| && k !in at ==> after[k] == before[k])
    && forall i :: 0 <= i < |at| ==>
         && after[at[i]].draft == before[at[i]].draft && after[at[i]].verdict == before[at[i]].verdict
         && (if results[i].sdwanRuleId.Some? then after[at[i]].status == Succeeded(results[i].sdwanRuleId.value)
             else results[i].error.Some? && after[at[i]].status == RowStatus.Failed(results[i].error.value))
  }

  /** Each result is the outcome of its rule's request. */
  ghost predicate ResultsOf(rows: seq<PlanRow>, at: seq<nat>, reply: nat -> Reply, results: seq<PushResult>)
    requires Within(rows, at)
  {
    && |results| == |at|
    && forall i :: 0 <= i < |at| ==> OutcomeFor(PlanRule(at[i], rows[at[i]].draft), reply(at[i]), results[i])
  }

  lemma StoredOutcomes(rows: seq<PlanRow>, at: seq<nat>, reply: nat -> Reply, results: seq<PushResult>)
    requires Within(rows, at) && |results| == |at| && forall i, j :: 0 <= i < j < |at| ==> at[i] < at[j]
    requires forall i :: 0 <= i < |at| ==> OutcomeFor(RulesAt(rows, at)[i], RepliesAt(reply, at)[i], results[i])
    ensures ResultsOf(rows, at, reply, results)
    ensures OutcomesStored(rows, Recorded(rows, at, Outcomes(RepliesAt(reply, at))), at, results)
  {
    hide Recorded;
    RecordedMeaning(rows, at, Outcomes(RepliesAt(reply, at)));
    forall i | 0 <= i < |at| ensures OutcomeFor(PlanRule(at[i], rows[at[i]].draft), reply(at[i]), results[i]) {
      assert OutcomeFor(RulesAt(rows, at)[i], RepliesAt(reply, at)[i], results[i]);
    }
  }

  /** One policy for each request that stored one, beside those that were there. */
  ghost predicate PoliciesAdded(
    before: seq<Policy>, after: seq<Policy>, target: Target, priority: Priority, rows: seq<PlanRow>, at: seq<nat>,
    reply: nat -> Reply)
    requires Within(rows, at)
  {
    forall p :: p in after <==> p in before || AddedBy(target, priority, rows, at, reply, p)
  }

  ghost predicate AddedBy(
    target: Target, priority: Priority, rows: seq<PlanRow>, at: seq<nat>, reply: nat -> Reply, p: Policy)
    requires Within(rows, at)
  {
    exists i ::
      && 0 <= i < |at| && Stores(reply(at[i]))
      && p == Policy(reply(at[i]).id, RequestFor(target, priority, rows[at[i]].draft))
  }

  lemma PushedAdds(
    before: seq<Policy>, target: Target, priority: Priority, rows: seq<PlanRow>, at: seq<nat>, reply: nat -> Reply)
    requires Within(rows, at)
    ensures PoliciesAdded(
      before, Pushed(before, target, priority, RulesAt(rows, at), RepliesAt(reply, at)), target, priority, rows, at,
      reply)
  {
    hide RequestFor, Pushed;
    var rules, replies := RulesAt(rows, at), RepliesAt(reply, at);
    forall p ensures p in Pushed(before, target, priority, rules, replies) <==>
      p in before || AddedBy(target, priority, rows, at, reply, p)
    {
      PushedMeaning(before, target, priority, rules, replies, p);
      forall i | 0 <= i < |at| ensures StoredAs(target, priority, rules[i], replies[i], p) <==>
        Stores(reply(at[i])) && p == Policy(reply(at[i]).id, RequestFor(target, priority, rows[at[i]].draft)) {}
    }
  }

  class ExecutePlans {
    const server: PolicyServer
    var plans: seq<Plan>

    constructor (server: PolicyServer)
      ensures this.server == server && plans == []
    {
      this.server := server;
      plans := [];
    }

    /** Compares every draft with the policies of the moment and stores the plan. */
    method PreparePlan(prim: Primitives, c: Catalog, drafts: seq<Draft>) returns (id: nat)
      requires CatalogChecked(c)
      modifies this
      ensures id == |old(plans)|
      ensures plans == old(plans) + [Plan(PlanRows(prim, c, server.policies, drafts), false)]
      ensures forall i :: 0 <= i < |drafts| ==>
        plans[id].rows[i] == PlanRow(drafts[i], Compare(prim, c, RulesOf(server.policies), drafts[i].body), Pending)
    {
      hide Compare, RulesOf;
      var rules := RulesOf(server.policies);
      var comparer := new RulesComparer(prim, c, rules);
      var rows: seq<PlanRow> := [];
      for i := 0 to |drafts|
        invariant comparer.Valid() && comparer.catalog == c && comparer.rules == rules && comparer.resolver.prim == prim
        invariant plans == old(plans) && rows == PlanRows(prim, c, server.policies, drafts)[..i]
      {
        var verdict := comparer.CompareRule(drafts[i].body);
        rows := rows + [PlanRow(drafts[i], verdict, Pending)];
      }
      assert rows == PlanRows(prim, c, server.policies, drafts);
      id := |plans|;
      plans := plans + [Plan(rows, false)];
    }

    /** `guards` says whether both fingerprint comparisons succeed; nothing is compared again. */
    method PushPlan(id: nat, guards: bool, target: Option<Target>, priority: Priority, reply: nat -> Reply)
      returns (r: Result<seq<PushResult>, PushError>)
      requires forall n: nat :: ReplyChecked(reply(n))
      modifies this, server
      ensures id >= |old(plans)| ==> r == Err(PlanNotFound)
      ensures id < |old(plans)| && old(plans)[id].executed ==> r == Err(AlreadyPushed)
      ensures id < |old(plans)| && !old(plans)[id].executed ==>
        var rows := old(plans)[id].rows;
        var at := PushableRows(rows);
        if at == [] then r == Err(NothingToPush)
        else if !guards then r == Err(GuardFailed)
        else if target.None? then
          && r == Err(TargetNotFound)
          && plans == old(plans)[id := Plan(rows, true)] && server.policies == old(server.policies)
        else
          && plans == old(plans)[id := Plan(Recorded(rows, at, Outcomes(RepliesAt(reply, at))), true)]
          && server.policies ==
            Pushed(old(server.policies), target.value, priority, RulesAt(rows, at), RepliesAt(reply, at))
          && r.Ok? && ResultsOf(rows, at, reply, r.value)
          && plans[id].executed && OutcomesStored(rows, plans[id].rows, at, r.value)
          && PoliciesAdded(old(server.policies), server.policies, target.value, priority, rows, at, reply)
      ensures r.Err? && r.error != TargetNotFound ==> plans == old(plans) && server.policies == old(server.policies)
    {
      if id >= |plans| { return Err(PlanNotFound); }
      if plans[id].executed { return Err(AlreadyPushed); }
      var rows := plans[id].rows;
      var at := PushableRows(rows);
      if at == [] { return Err(NothingToPush); }
      if !guards { return Err(GuardFailed); }
      plans := plans[id := Plan(rows, true)];
      if target.Some? { PushedAdds(server.policies, target.value, priority, rows, at, reply); }
      hide Pushed, Recorded, PushableRows, PoliciesAdded, OutcomesStored, ResultsOf, OutcomeFor, Outcomes;
      var pushed := PushRules(server, target, RulesAt(rows, at), priority, RepliesAt(reply, at));
      if pushed.Err? { return Err(TargetNotFound); }
      StoredOutcomes(rows, at, reply, pushed.value);
      RecordOutcomes(id, at, RulesAt(rows, at), RepliesAt(reply, at), pushed.value);
      r := Ok(pushed.value);
    }

    /** The loop that stores what became of each rule sent. */
    method RecordOutcomes(
      id: nat, at: seq<nat>, ghost rules: seq<PlanRule>, ghost replies: seq<Reply>, results: seq<PushResult>)
      requires id < |plans| && Within(plans[id].rows, at) && |rules| == |replies| == |results| == |at|
      requires forall i :: 0 <= i < |at| ==> OutcomeFor(rules[i], replies[i], results[i])
      modifies this
      ensures plans ==
        old(plans)[id := old(plans)[id].(rows := Recorded(old(plans)[id].rows, at, Outcomes(replies)))]
    {
      ghost var rows := plans[id].rows;
      for i := 0 to |at|
        invariant plans ==
          old(plans)[id := old(plans)[id].(rows := Recorded(rows, at[..i], Outcomes(replies)[..i]))]
      {
        assert at[..i + 1][..i] == at[..i] && Outcomes(replies)[..i + 1][..i] == Outcomes(replies)[..i];
        var status := if results[i].sdwanRuleId.Some? then Succeeded(results[i].sdwanRuleId.value)
          else RowStatus.Failed(
            if results[i].error.Some? && results[i].error.value != "" then results[i].error.value else "Push failed");
        assert OutcomeFor(rules[i], replies[i], results[i]);
        var current := plans[id].rows;
        plans := plans[id := plans[id].(rows := current[at[i] := current[at[i]].(status := status)])];
      }
      assert at[..|at|] == at && Outcomes(replies)[..|at|] == Outcomes(replies);
    }
  }

  // ----- the same as steps

  ghost predicate Reaches(prim: Primitives, w: World, v: World) {
    exists states: seq<World>, steps: seq<Step> :: Leads(prim, w, v, states, steps)
  }

  ghost predicate Leads(prim: Primitives, w: World, v: World, states: seq<World>, steps: seq<Step>) {
    && |states| == |steps| + 1 && states[0] == w && states[|steps|] == v
    && forall i :: 0 <= i < |steps| ==> Follows(prim, states[i], steps[i], states[i + 1])
  }

  lemma ReachesSelf(prim: Primitives, w: World)
    ensures Reaches(prim, w, w)
  {
    assert Leads(prim, w, w, [w], []);
  }

  lemma ReachesNext(prim: Primitives, w: World, v: World, step: Step)
    requires Reaches(prim, w, v) && WellFormed(v) && Enabled(v, step)
    ensures Reaches(prim, w, Apply(prim, v, step)) && WellFormed(Apply(prim, v, step))
  {
    hide Apply, WellFormed, Enabled;
    StepKeepsWellFormed(prim, v, step);
    var states, steps :| Leads(prim, w, v, states, steps);
    var more, all := states + [Apply(prim, v, step)], steps + [step];
    forall i | 0 <= i < |all| ensures Follows(prim, more[i], all[i], more[i + 1]) {
      if i < |steps| { assert Follows(prim, states[i], steps[i], states[i + 1]); }
    }
    assert Leads(prim, w, Apply(prim, v, step), more, all);
  }

  /** A marked push of plan `j`, about to send the rows at `at`. */
  ghost predicate AboutToSend(w: World, k: nat, j: nat, at: seq<nat>) {
    && WellFormed(w) && k < |w.pushes| && j < |w.plans| && w.pushes[k] == Push(j, Marked, at, [], 0)
    && Within(w.plans[j].rows, at)
  }

  ghost function AfterSends(
    w: World, k: nat, j: nat, at: seq<nat>, target: Target, priority: Priority, replies: seq<Reply>, n: nat): World
    requires AboutToSend(w, k, j, at) && |replies| == |at| && n <= |at|
  {
    World(
      Pushed(w.policies, target, priority, RulesAt(w.plans[j].rows, at)[..n], replies[..n]), w.plans,
      w.pushes[k := Push(j, Marked, at, Outcomes(replies)[..n], 0)])
  }

  lemma {:induction false} SendsReach(
    prim: Primitives, w: World, k: nat, j: nat, at: seq<nat>, target: Target, priority: Priority, replies: seq<Reply>,
    n: nat)
    requires AboutToSend(w, k, j, at) && |replies| == |at| && n <= |at|
    ensures Reaches(prim, w, AfterSends(w, k, j, at, target, priority, replies, n))
    ensures WellFormed(AfterSends(w, k, j, at, target, priority, replies, n))
  {
    hide Reaches, WellFormed, Answered, Apply;
    if n == 0 {
      ReachesSelf(prim, w);
      assert AfterSends(w, k, j, at, target, priority, replies, 0) == w;
    } else {
      var m := n - 1;
      SendsReach(prim, w, k, j, at, target, priority, replies, m);
      var v := AfterSends(w, k, j, at, target, priority, replies, m);
      var rules := RulesAt(w.plans[j].rows, at);
      assert rules[..n][..m] == rules[..m] && replies[..n][..m] == replies[..m];
      assert NextDraft(v, k) == rules[m].draft;
      assert Outcomes(replies)[..n] == Outcomes(replies)[..m] + [OutcomeOf(replies[m])];
      SendStep(prim, v, k, target, priority, replies[m]);
      ReachesNext(prim, w, v, Send(k, target, priority, replies[m]));
      var u := Apply(prim, v, Send(k, target, priority, replies[m]));
      var x := AfterSends(w, k, j, at, target, priority, replies, n);
      assert u.policies == x.policies;
      assert u.pushes == x.pushes;
    }
  }

  lemma SendStep(prim: Primitives, v: World, k: nat, target: Target, priority: Priority, reply: Reply)
    requires WellFormed(v) && InStage(v, k, Marked) && |v.pushes[k].outcomes| < |v.pushes[k].rows|
    ensures Apply(prim, v, Send(k, target, priority, reply)) == World(
      Answered(v.policies, target, priority, NextDraft(v, k), reply), v.plans,
      v.pushes[k := v.pushes[k].(outcomes := v.pushes[k].outcomes + [OutcomeOf(reply)])])
  {
    hide WellFormed, Answered;
  }

  lemma RecordStep(prim: Primitives, v: World, k: nat, j: nat, at: nat, outcome: RowStatus)
    requires WellFormed(v) && Enabled(v, Record(k)) && j == v.pushes[k].plan
    requires at == v.pushes[k].rows[v.pushes[k].recorded] && outcome == v.pushes[k].outcomes[v.pushes[k].recorded]
    ensures j < |v.plans| && at < |v.plans[j].rows|
    ensures Apply(prim, v, Record(k)) == World(
      v.policies,
      v.plans[j := v.plans[j].(rows := v.plans[j].rows[at := v.plans[j].rows[at].(status := outcome)])],
      v.pushes[k := v.pushes[k].(recorded := v.pushes[k].recorded + 1)])
  {
    assert PushOk(v, v.pushes[k]);
  }

  ghost function AfterRecords(w: World, k: nat, j: nat, at: seq<nat>, outcomes: seq<RowStatus>, n: nat): World
    requires k < |w.pushes| && j < |w.plans| && Within(w.plans[j].rows, at) && |outcomes| == |at| && n <= |at|
  {
    World(
      w.policies, w.plans[j := w.plans[j].(rows := Recorded(w.plans[j].rows, at[..n], outcomes[..n]))],
      w.pushes[k := Push(j, Marked, at, outcomes, n)])
  }

  lemma {:induction false} RecordsReach(
    prim: Primitives, w: World, k: nat, j: nat, at: seq<nat>, outcomes: seq<RowStatus>, n: nat)
    requires WellFormed(w) && k < |w.pushes| && j < |w.plans| && w.pushes[k] == Push(j, Marked, at, outcomes, 0)
    requires Within(w.plans[j].rows, at) && |outcomes| == |at| && n <= |at|
    ensures Reaches(prim, w, AfterRecords(w, k, j, at, outcomes, n))
    ensures WellFormed(AfterRecords(w, k, j, at, outcomes, n))
  {
    hide Reaches, WellFormed, Apply;
    if n == 0 {
      ReachesSelf(prim, w);
      assert AfterRecords(w, k, j, at, outcomes, 0) == w;
    } else {
      var m := n - 1;
      RecordsReach(prim, w, k, j, at, outcomes, m);
      var v := AfterRecords(w, k, j, at, outcomes, m);
      assert at[..n][..m] == at[..m] && outcomes[..n][..m] == outcomes[..m];
      RecordStep(prim, v, k, j, at[m], outcomes[m]);
      ReachesNext(prim, w, v, Record(k));
      var u := Apply(prim, v, Record(k));
      var x := AfterRecords(w, k, j, at, outcomes, n);
      assert u.plans == x.plans;
      assert u.pushes == x.pushes;
    }
  }

  lemma ReachesTransitive(prim: Primitives, w: World, v: World, x: World)
    requires Reaches(prim, w, v) && Reaches(prim, v, x)
    ensures Reaches(prim, w, x)
  {
    hide Follows;
    var s, a :| Leads(prim, w, v, s, a);
    var t, b :| Leads(prim, v, x, t, b);
    var states, steps := s + t[1..], a + b;
    forall i | 0 <= i < |steps| ensures Follows(prim, states[i], steps[i], states[i + 1]) {
      if i < |a| {
        assert states[i] == s[i] && states[i + 1] == s[i + 1] && steps[i] == a[i];
      } else {
        assert states[i] == t[i - |a|] && states[i + 1] == t[i - |a| + 1] && steps[i] == b[i - |a|];
      }
    }
    assert Leads(prim, w, x, states, steps);
  }

  /** The world after an uninterrupted push of plan `j`, its finished frame included. */
  ghost function AfterPush(w: World, j: nat, target: Target, priority: Priority, reply: nat -> Reply): World
    requires j < |w.plans|
  {
    var rows := w.plans[j].rows;
    var at := PushableRows(rows);
    var replies := RepliesAt(reply, at);
    World(
      Pushed(w.policies, target, priority, RulesAt(rows, at), replies),
      w.plans[j := Plan(Recorded(rows, at, Outcomes(replies)), true)],
      w.pushes + [Push(j, Marked, at, Outcomes(replies), |at|)])
  }

  lemma MarkedReached(prim: Primitives, w: World, j: nat) returns (v: World)
    requires WellFormed(w) && j < |w.plans| && !w.plans[j].executed && PushableRows(w.plans[j].rows) != []
    ensures Reaches(prim, w, v) && WellFormed(v)
    ensures v == World(
      w.policies, w.plans[j := Plan(w.plans[j].rows, true)],
      w.pushes + [Push(j, Marked, PushableRows(w.plans[j].rows), [], 0)])
  {
    hide Reaches, WellFormed, PushableRows;
    var k := |w.pushes|;
    ReachesSelf(prim, w);
    ReachesNext(prim, w, w, Check(j));
    v := Apply(prim, w, Check(j));
    ReachesNext(prim, w, v, List(k));
    v := Apply(prim, v, List(k));
    assert v.pushes[k] == Push(j, Listed, PushableRows(w.plans[j].rows), [], 0);
    ReachesNext(prim, w, v, Mark(k));
    v := Apply(prim, v, Mark(k));
  }

  /** The uninterrupted push command is one of the runs of its steps. */
  lemma PushPlanIsARun(
    prim: Primitives, w: World, j: nat, target: Target, priority: Priority, reply: nat -> Reply)
    requires WellFormed(w) && j < |w.plans| && !w.plans[j].executed && PushableRows(w.plans[j].rows) != []
    ensures Reaches(prim, w, AfterPush(w, j, target, priority, reply))
  {
    hide Reaches, WellFormed, PushableRows, Apply, Pushed, Recorded;
    var k, at := |w.pushes|, PushableRows(w.plans[j].rows);
    var replies := RepliesAt(reply, at);
    var n := |at|;
    assert Within(w.plans[j].rows, at);
    var v := MarkedReached(prim, w, j);
    assert v.pushes[k] == Push(j, Marked, at, [], 0) && AboutToSend(v, k, j, at);
    SendsReach(prim, v, k, j, at, target, priority, replies, n);
    var sent := AfterSends(v, k, j, at, target, priority, replies, n);
    ReachesTransitive(prim, w, v, sent);
    assert Outcomes(replies)[..n] == Outcomes(replies) && replies[..n] == replies && at[..n] == at;
    RecordsReach(prim, sent, k, j, at, Outcomes(replies), n);
    var done := AfterRecords(sent, k, j, at, Outcomes(replies), n);
    ReachesTransitive(prim, w, sent, done);
    assert RulesAt(v.plans[j].rows, at)[..n] == RulesAt(w.plans[j].rows, at);
    assert done.plans == AfterPush(w, j, target, priority, reply).plans;
    assert done.pushes == AfterPush(w, j, target, priority, reply).pushes;
  }
}
