/** Policies on the server, creation of planned rules one by one, and whole prepare-and-push runs. */
module PolicyGateway {
  import opened CatalogModels
  import opened Rules
  import opened Comparer
  import opened Verdicts

  datatype DeviceType = Device | DeviceGroup

  datatype Target = Target(devObjId: string, kind: DeviceType)

  datatype Priority = Local | Pre | Post

  datatype Draft = Draft(name: string, body: RuleBody)

  datatype PlanRule = PlanRule(id: int, draft: Draft)

  /** The request that creates a policy; the constants are those of the gateway. */
  datatype PolicyRequest = PolicyRequest(
    name: string, activated: bool, action: Action, log: bool, l4Inspection: bool,
    ingressZone: seq<int>, egressZone: seq<int>, srcAddress: seq<int>, dstAddress: seq<int>, service: seq<int>,
    parent: string, parentKind: DeviceType, priority: Priority)

  datatype Policy = Policy(policyId: int, request: PolicyRequest)

  datatype PushResult = PushResult(planRuleId: int, ruleName: string, sdwanRuleId: Option<int>, error: Option<string>)

  /** How one creation request ends. The policy may exist on the server although the call raised. */
  datatype Reply =
    | Created(id: int, at: nat)
    | Failed(message: string, typeName: string)
    | LostReply(id: int, at: nat, message: string, typeName: string)

  predicate Stores(r: Reply) { !r.Failed? }

  /** Exception types have a name. */
  predicate ReplyChecked(r: Reply) { r.Created? || r.typeName != "" }

  /** The text kept for a request that raised: its message, or the type name when there is none. */
  function ErrorText(r: Reply): string
    requires !r.Created?
  {
    if r.message != "" then r.message else r.typeName
  }

  function RequestFor(target: Target, priority: Priority, draft: Draft): PolicyRequest {
    PolicyRequest(
      draft.name, true, draft.body.action, false, false,
      draft.body.srcZones, draft.body.dstZones, draft.body.srcAddrs, draft.body.dstAddrs, draft.body.services,
      target.devObjId, target.kind, priority)
  }

  /** A policy as the comparer sees it. */
  function RuleOf(p: Policy): SdwanRule {
    SdwanRule(p.policyId, RuleBody(
      p.request.action, p.request.ingressZone, p.request.egressZone,
      p.request.srcAddress, p.request.dstAddress, p.request.service))
  }

  function RulesOf(policies: seq<Policy>): seq<SdwanRule> {
    seq(|policies|, i requires 0 <= i < |policies| => RuleOf(policies[i]))
  }

  /** A draft pushed and read back is the rule that was planned. */
  lemma PushReadRoundTrip(target: Target, priority: Priority, draft: Draft, id: int)
    ensures RuleOf(Policy(id, RequestFor(target, priority, draft))) == SdwanRule(id, draft.body)
    ensures var q := RequestFor(target, priority, draft);
      && q.name == draft.name && q.activated && !q.log && !q.l4Inspection
      && Target(q.parent, q.parentKind) == target && q.priority == priority
      && q.ingressZone == draft.body.srcZones && q.egressZone == draft.body.dstZones
      && q.srcAddress == draft.body.srcAddrs && q.dstAddress == draft.body.dstAddrs
      && q.service == draft.body.services && q.action == draft.body.action
  {
  }

  function InsertAt(s: seq<Policy>, at: nat, p: Policy): seq<Policy> {
    if at <= |s| then s[..at] + [p] + s[at..] else s + [p]
  }

  lemma InsertAtMeaning(s: seq<Policy>, at: nat, p: Policy)
    ensures multiset(InsertAt(s, at, p)) == multiset(s) + multiset{p}
    ensures forall x :: x in InsertAt(s, at, p) <==> x in s || x == p
  {
    if at <= |s| { assert s == s[..at] + s[at..]; }
  }

  /** The server's policies after one request was answered. */
  function Answered(
    policies: seq<Policy>, target: Target, priority: Priority, draft: Draft, reply: Reply): seq<Policy>
  {
    if !Stores(reply) then policies
    else InsertAt(policies, reply.at, Policy(reply.id, RequestFor(target, priority, draft)))
  }

  /** The server's policies after some requests were answered. */
  function Pushed(
    policies: seq<Policy>, target: Target, priority: Priority, planRules: seq<PlanRule>, replies: seq<Reply>)
    : seq<Policy>
    requires |replies| == |planRules|
  {
    if planRules == [] then policies
    else
      var n := |planRules| - 1;
      var before := Pushed(policies, target, priority, planRules[..n], replies[..n]);
      Answered(before, target, priority, planRules[n].draft, replies[n])
  }

  class PolicyServer {
    var policies: seq<Policy>

    method CreatePolicy(request: PolicyRequest, reply: Reply) returns (r: Result<int, string>)
      requires ReplyChecked(reply)
      modifies this
      ensures policies == if Stores(reply)
        then InsertAt(old(policies), reply.at, Policy(reply.id, request)) else old(policies)
      ensures r.Ok? <==> reply.Created?
      ensures r.Ok? ==> r.value == reply.id
      ensures r.Err? ==> r.error == (if reply.message != "" then reply.message else reply.typeName)
    {
      if Stores(reply) {
        policies := InsertAt(policies, reply.at, Policy(reply.id, request));
      }
      if reply.Created? {
        return Ok(reply.id);
      }
      return Err(ErrorText(reply));
    }
  }

  /** One outcome per plan rule, in order: an id exactly when the call returned, an error text otherwise. */
  ghost predicate OutcomeFor(rule: PlanRule, reply: Reply, result: PushResult) {
    && result.planRuleId == rule.id && result.ruleName == rule.draft.name
    && (result.sdwanRuleId == if reply.Created? then Some(reply.id) else None)
    && (result.error == if reply.Created? then None else Some(ErrorText(reply)))
    && (result.error.Some? ==> result.error.value != "")
  }

  /** The request for one rule, its exception turned into an outcome. */
  method PushRule(server: PolicyServer, target: Target, rule: PlanRule, priority: Priority, reply: Reply)
    returns (result: PushResult)
    requires ReplyChecked(reply)
    modifies server
    ensures OutcomeFor(rule, reply, result)
    ensures server.policies == Answered(old(server.policies), target, priority, rule.draft, reply)
  {
    var created := server.CreatePolicy(RequestFor(target, priority, rule.draft), reply);
    if created.Err? {
      return PushResult(rule.id, rule.draft.name, None, Some(created.error));
    }
    return PushResult(rule.id, rule.draft.name, Some(created.value), None);
  }

  method PushRules(
      server: PolicyServer, target: Option<Target>, planRules: seq<PlanRule>, priority: Priority, replies: seq<Reply>)
    returns (r: Result<seq<PushResult>, string>)
    requires |replies| == |planRules| && forall x | x in replies :: ReplyChecked(x)
    modifies server
    ensures r.Ok? <==> target.Some?
    ensures r.Err? ==> server.policies == old(server.policies)
    ensures r.Ok? ==>
      |r.value| == |planRules| && forall i :: 0 <= i < |planRules| ==> OutcomeFor(planRules[i], replies[i], r.value[i])
    ensures r.Ok? ==> server.policies == Pushed(old(server.policies), target.value, priority, planRules, replies)
  {
    if target.None? {
      return Err("Not found device object");
    }
    var results: seq<PushResult> := [];
    for i := 0 to |planRules|
      invariant |results| == i
      invariant forall j :: 0 <= j < i ==> OutcomeFor(planRules[j], replies[j], results[j])
      invariant server.policies == Pushed(old(server.policies), target.value, priority, planRules[..i], replies[..i])
    {
      assert replies[i] in replies;
      assert planRules[..i + 1][..i] == planRules[..i] && replies[..i + 1][..i] == replies[..i];
      var result := PushRule(server, target.value, planRules[i], priority, replies[i]);
      results := results + [result];
    }
    assert planRules[..|planRules|] == planRules && replies[..|replies|] == replies;
    return Ok(results);
  }

  /** Exactly the old policies and the stored ones are on the server afterwards. */
  lemma {:induction false} PushedMeaning(
      policies: seq<Policy>, target: Target, priority: Priority, planRules: seq<PlanRule>, replies: seq<Reply>,
        p: Policy)
    requires |replies| == |planRules|
    ensures p in Pushed(policies, target, priority, planRules, replies) <==>
      p in policies || exists i :: 0 <= i < |planRules| && StoredAs(target, priority, planRules[i], replies[i], p)
  {
    hide StoredAs;
    if planRules != [] {
      var n := |planRules| - 1;
      var before := Pushed(policies, target, priority, planRules[..n], replies[..n]);
      PushedMeaning(policies, target, priority, planRules[..n], replies[..n], p);
      assert forall i :: 0 <= i < n ==> planRules[..n][i] == planRules[i] && replies[..n][i] == replies[i];
      StoredStep(target, priority, planRules[n], replies[n], before, p);
    }
  }

  ghost predicate StoredAs(target: Target, priority: Priority, rule: PlanRule, reply: Reply, p: Policy) {
    Stores(reply) && p == Policy(reply.id, RequestFor(target, priority, rule.draft))
  }

  lemma StoredStep(target: Target, priority: Priority, rule: PlanRule, reply: Reply, before: seq<Policy>, p: Policy)
    ensures p in (if Stores(reply)
      then InsertAt(before, reply.at, Policy(reply.id, RequestFor(target, priority, rule.draft))) else before)
      <==> p in before || StoredAs(target, priority, rule, reply, p)
  {
    if Stores(reply) { InsertAtMeaning(before, reply.at, Policy(reply.id, RequestFor(target, priority, rule.draft))); }
  }

  // ----- retry safety

  lemma RulesOfMembers(policies: seq<Policy>, p: Policy)
    ensures p in policies ==> RuleOf(p) in RulesOf(policies)
  {
    if p in policies {
      var i :| 0 <= i < |policies| && policies[i] == p;
      assert RulesOf(policies)[i] == RuleOf(p);
    }
  }

  lemma RulesOfGrow(policies: seq<Policy>, more: seq<Policy>)
    requires forall p | p in policies :: p in more
    ensures forall r | r in RulesOf(policies) :: r in RulesOf(more)
  {
    forall r | r in RulesOf(policies) ensures r in RulesOf(more) {
      var i :| 0 <= i < |policies| && RulesOf(policies)[i] == r;
      assert policies[i] in policies;
      RulesOfMembers(more, policies[i]);
    }
  }

  /** After any push, every stored draft compares as exact, whatever was answered, if it resolves. */
  lemma StoredIsExact(
      prim: Primitives, c: Catalog, policies: seq<Policy>, target: Target, priority: Priority,
      planRules: seq<PlanRule>, replies: seq<Reply>, i: nat)
    requires CatalogChecked(c) && |replies| == |planRules| && i < |planRules| && Stores(replies[i])
    ensures var after := RulesOf(Pushed(policies, target, priority, planRules, replies));
      Compare(prim, c, after, planRules[i].draft.body).ExactMatch? <==> ResolveIn(prim, c, planRules[i].draft.body).Ok?
  {
    hide ResolveIn;
    var after := Pushed(policies, target, priority, planRules, replies);
    var p := Policy(replies[i].id, RequestFor(target, priority, planRules[i].draft));
    assert StoredAs(target, priority, planRules[i], replies[i], p);
    PushedMeaning(policies, target, priority, planRules, replies, p);
    RulesOfMembers(after, p);
    PushReadRoundTrip(target, priority, planRules[i].draft, replies[i].id);
    OwnBodyIsExact(prim, c, RulesOf(after), RuleOf(p));
  }

  /** A push never turns a match of any draft back into a new rule, nor changes a match error. */
  lemma PushKeepsVerdicts(
      prim: Primitives, c: Catalog, policies: seq<Policy>, target: Target, priority: Priority,
      planRules: seq<PlanRule>, replies: seq<Reply>, draft: RuleBody)
    requires CatalogChecked(c) && |replies| == |planRules|
    ensures var before, after := Compare(prim, c, RulesOf(policies), draft),
                                 Compare(prim, c, RulesOf(Pushed(policies, target, priority, planRules, replies)),
                                   draft);
      && (before.MatchError? <==> after.MatchError?) && (before.MatchError? ==> after == before)
      && (before.ExactMatch? ==> after.ExactMatch?)
      && (before.CoveredMatch? ==> !after.NewRule?)
  {
    var after := Pushed(policies, target, priority, planRules, replies);
    forall p | p in policies ensures p in after { PushedMeaning(policies, target, priority, planRules, replies, p); }
    RulesOfGrow(policies, after);
    MoreRulesKeepVerdict(prim, c, RulesOf(policies), RulesOf(after), draft);
  }
}
