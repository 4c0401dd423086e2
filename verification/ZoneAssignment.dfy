/** Assigning one SD-WAN zone to every rule of a mapping scope, also when commands overlap. */
module ZoneAssignment {
  import opened CatalogModels
  import opened Order

  datatype EntityType = ZoneEntity | AddrEntity | ServiceEntity

  datatype Status = Matched | Ambiguous | Unresolved

  datatype Role = SrcZone | DstZone | SrcAddr | DstAddr | ServiceRole

  datatype Direction = FromZone | ToZone

  /** How one canonical entity was mapped; a manual zone result links to no canonical entity. */
  datatype EntityResult = EntityResult(
    id: int, entityType: EntityType, canonicalZone: Option<int>, canonicalObject: Option<int>,
    status: Status, selected: Option<int>, createdAt: string)

  datatype Operand = Operand(id: int, ruleId: int, role: Role, resultId: int)

  datatype Rule = Rule(id: int, operands: seq<Operand>)

  /** A stored scope: rules by priority, results in the order they were added. */
  datatype Scope = Scope(rules: seq<Rule>, results: seq<EntityResult>)

  datatype Failure = ScopeNotFound | NoRules | ZoneNotFound | ResultExists

  /** What the clock and the id generator supply to one command. */
  datatype Stamp = Stamp(resultId: int, createdAt: string, operandId: int -> int)

  datatype Outcome = Outcome(scope: Scope, result: EntityResult, operands: seq<Operand>)

  function RoleOf(d: Direction): Role { if d.FromZone? then SrcZone else DstZone }

  predicate ResolvesTo(r: EntityResult, zone: int) {
    r.entityType.ZoneEntity? && r.status.Matched? && r.selected == Some(zone)
  }

  predicate IsManual(r: EntityResult) { r.canonicalZone.None? && r.canonicalObject.None? }

  function Filter<T>(p: T -> bool, s: seq<T>): seq<T> {
    if s == [] then [] else (if p(s[0]) then [s[0]] else []) + Filter(p, s[1..])
  }

  lemma {:induction false} FilterMeaning<T>(p: T -> bool, s: seq<T>)
    ensures forall x :: x in Filter(p, s) <==> x in s && p(x)
  {
    if s != [] {
      FilterMeaning(p, s[1..]);
      assert s == [s[0]] + s[1..];
    }
  }

  function CreatedAt(r: EntityResult): string { r.createdAt }

  /** The zone results of a scope, oldest first. */
  function ListZoneResults(results: seq<EntityResult>): seq<EntityResult> {
    SortBy(CreatedAt, Filter((r: EntityResult) => r.entityType.ZoneEntity?, results))
  }

  function MatchingResults(results: seq<EntityResult>, zone: int): seq<EntityResult> {
    Filter((r: EntityResult) => r.status.Matched? && r.selected == Some(zone), ListZoneResults(results))
  }

  lemma MatchingMeaning(results: seq<EntityResult>, zone: int)
    ensures forall r :: r in MatchingResults(results, zone) <==> r in results && ResolvesTo(r, zone)
  {
    var zones := Filter((r: EntityResult) => r.entityType.ZoneEntity?, results);
    FilterMeaning((r: EntityResult) => r.entityType.ZoneEntity?, results);
    SortBySorts(CreatedAt, zones);
    FilterMeaning((r: EntityResult) => r.status.Matched? && r.selected == Some(zone), ListZoneResults(results));
    forall r ensures r in MatchingResults(results, zone) <==> r in results && ResolvesTo(r, zone) {
      assert r in ListZoneResults(results) <==> r in multiset(zones);
    }
  }

  predicate Refers(rule: Rule, role: Role, matching: seq<EntityResult>) {
    exists o, r :: o in rule.operands && r in matching && o.role == role && o.resultId == r.id
  }

  function RulesWithoutZone(rules: seq<Rule>, role: Role, matching: seq<EntityResult>): seq<Rule> {
    Filter((rule: Rule) => !Refers(rule, role, matching), rules)
  }

  function FirstManual(matching: seq<EntityResult>): (r: Option<EntityResult>)
    ensures r.Some? ==> IsManual(r.value)
    ensures r.Some? ==> exists k ::
      0 <= k < |matching| && matching[k] == r.value && forall j :: 0 <= j < k ==> !IsManual(matching[j])
    ensures r.None? ==> forall x | x in matching :: !IsManual(x)
  {
    if matching == [] then None
    else if IsManual(matching[0]) then Some(matching[0])
    else
      var rest := FirstManual(matching[1..]);
      assert rest.Some? ==> forall k :: 0 <= k < |matching| - 1 ==> matching[1..][k] == matching[k + 1];
      rest
  }

  function ManualResult(zone: int, stamp: Stamp): EntityResult {
    EntityResult(stamp.resultId, ZoneEntity, None, None, Matched, Some(zone), stamp.createdAt)
  }

  function NewOperand(rule: Rule, role: Role, resultId: int, stamp: Stamp): Operand {
    Operand(stamp.operandId(rule.id), rule.id, role, resultId)
  }

  function AddOperand(rules: seq<Rule>, o: Operand): (r: seq<Rule>)
    ensures |r| == |rules|
  {
    seq(|rules|, i requires 0 <= i < |rules| =>
      if rules[i].id == o.ruleId then rules[i].(operands := rules[i].operands + [o]) else rules[i])
  }

  function AddOperands(rules: seq<Rule>, operands: seq<Operand>): (r: seq<Rule>)
    ensures |r| == |rules|
  {
    if operands == [] then rules
    else AddOperand(AddOperands(rules, operands[..|operands| - 1]), operands[|operands| - 1])
  }

  function NewOperands(rules: seq<Rule>, role: Role, resultId: int, stamp: Stamp): (r: seq<Operand>)
    ensures |r| == |rules|
  {
    seq(|rules|, i requires 0 <= i < |rules| => NewOperand(rules[i], role, resultId, stamp))
  }

  predicate IdTaken(results: seq<EntityResult>, id: int) { exists r :: r in results && r.id == id }

  /**
   * The part of a command after its rules were read: rules come from that earlier read,
   * results from the store as it is now.
   */
  function Assign(scope: Scope, read: seq<Rule>, role: Role, zone: int, stamp: Stamp): Result<Outcome, Failure>
    requires read != []
  {
    var matching := MatchingResults(scope.results, zone);
    var missing := RulesWithoutZone(read, role, matching);
    if missing == [] then
      FallbackInRange(read, role, matching);
      var manual := FirstManual(matching);
      Ok(Outcome(scope, if manual.Some? then manual.value else matching[0], []))
    else
      match FirstManual(matching)
      case Some(manual) => Ok(Attach(scope, missing, role, manual, stamp))
      case None =>
        if IdTaken(scope.results, stamp.resultId) then Err(ResultExists)
        else
          var manual := ManualResult(zone, stamp);
          Ok(Attach(scope.(results := scope.results + [manual]), missing, role, manual, stamp))
  }

  function Attach(scope: Scope, missing: seq<Rule>, role: Role, manual: EntityResult, stamp: Stamp): Outcome {
    var operands := NewOperands(missing, role, manual.id, stamp);
    Outcome(scope.(rules := AddOperands(scope.rules, operands)), manual, operands)
  }

  /** When no rule lacks the zone, some result already proves it: the `[0]` fallback is in range. */
  lemma FallbackInRange(read: seq<Rule>, role: Role, matching: seq<EntityResult>)
    requires read != [] && RulesWithoutZone(read, role, matching) == []
    ensures matching != []
  {
    FilterMeaning((rule: Rule) => !Refers(rule, role, matching), read);
    assert read[0] in read && read[0] !in RulesWithoutZone(read, role, matching);
  }

  // ----- what a command means for the scope

  /** Some operand of this role resolves to the zone. */
  ghost predicate HasZone(rule: Rule, role: Role, results: seq<EntityResult>, zone: int) {
    exists o, r :: o in rule.operands && r in results && o.role == role && o.resultId == r.id && ResolvesTo(r, zone)
  }

  lemma RefersMeaning(rule: Rule, role: Role, results: seq<EntityResult>, zone: int)
    ensures Refers(rule, role, MatchingResults(results, zone)) <==> HasZone(rule, role, results, zone)
  {
    MatchingMeaning(results, zone);
  }

  ghost predicate DistinctRules(rules: seq<Rule>) {
    forall i, j :: 0 <= i < j < |rules| ==> rules[i].id != rules[j].id
  }

  ghost predicate DistinctResults(results: seq<EntityResult>) {
    forall i, j :: 0 <= i < j < |results| ==> results[i].id != results[j].id
  }

  ghost predicate AtMostOneManual(results: seq<EntityResult>) {
    forall i, j, zone ::
      0 <= i < j < |results| && ResolvesTo(results[i], zone) && IsManual(results[i]) && IsManual(results[j])
      ==> !ResolvesTo(results[j], zone)
  }

  /** `later` has the same rules, each with at least the operands it had. */
  ghost predicate Extends(earlier: seq<Rule>, later: seq<Rule>) {
    |earlier| == |later| &&
    forall i :: 0 <= i < |earlier| ==> earlier[i].id == later[i].id && earlier[i].operands <= later[i].operands
  }

  ghost predicate StoreGrows(s: Scope, t: Scope) { Extends(s.rules, t.rules) && s.results <= t.results }

  /** The operands a rule gets: exactly those addressed to it, in order, after its own. */
  function Addressed(operands: seq<Operand>, ruleId: int): seq<Operand> {
    Filter((o: Operand) => o.ruleId == ruleId, operands)
  }

  lemma {:induction false} FilterSnoc<T>(p: T -> bool, s: seq<T>, x: T)
    ensures Filter(p, s + [x]) == Filter(p, s) + (if p(x) then [x] else [])
  {
    if s == [] {
      assert [x][1..] == [];
    } else {
      FilterSnoc(p, s[1..], x);
      assert (s + [x])[1..] == s[1..] + [x];
    }
  }

  lemma {:induction false} AddOperandsMeaning(rules: seq<Rule>, operands: seq<Operand>, i: nat)
    requires i < |rules|
    ensures AddOperands(rules, operands)[i] == Rule(rules[i].id, rules[i].operands + Addressed(operands, rules[i].id))
  {
    if operands != [] {
      var before, last := operands[..|operands| - 1], operands[|operands| - 1];
      AddOperandsMeaning(rules, before, i);
      assert operands == before + [last];
      FilterSnoc((o: Operand) => o.ruleId == rules[i].id, before, last);
    }
  }

  lemma AddOperandsExtends(rules: seq<Rule>, operands: seq<Operand>)
    ensures Extends(rules, AddOperands(rules, operands))
    ensures DistinctRules(rules) ==> DistinctRules(AddOperands(rules, operands))
  {
    forall i | 0 <= i < |rules|
      ensures AddOperands(rules, operands)[i] == Rule(rules[i].id, rules[i].operands + Addressed(operands, rules[i].id))
    {
      AddOperandsMeaning(rules, operands, i);
    }
  }

  /** Operands naming a result that resolves to the zone give each addressed rule that zone. */
  lemma AddressedHasZone(
    rules: seq<Rule>, missing: seq<Rule>, role: Role, manual: EntityResult, stamp: Stamp,
    results: seq<EntityResult>, zone: int, i: nat)
    requires i < |rules| && manual in results && ResolvesTo(manual, zone)
    requires exists m :: m in missing && m.id == rules[i].id
    ensures HasZone(AddOperands(rules, NewOperands(missing, role, manual.id, stamp))[i], role, results, zone)
  {
    var operands := NewOperands(missing, role, manual.id, stamp);
    var m :| m in missing && m.id == rules[i].id;
    var k :| 0 <= k < |missing| && missing[k] == m;
    var o := operands[k];
    assert o == NewOperand(m, role, manual.id, stamp) && o in operands;
    AddOperandsMeaning(rules, operands, i);
    FilterMeaning((x: Operand) => x.ruleId == rules[i].id, operands);
    assert o in Addressed(operands, rules[i].id);
  }

  lemma ExtendsAt(earlier: seq<Rule>, later: seq<Rule>)
    requires Extends(earlier, later)
    ensures |earlier| == |later| && forall i :: 0 <= i < |earlier| ==> earlier[i].id == later[i].id
  {
  }

  lemma HasZoneStays(s: Scope, t: Scope, i: nat, role: Role, zone: int)
    requires StoreGrows(s, t) && i < |s.rules| && HasZone(s.rules[i], role, s.results, zone)
    ensures HasZone(t.rules[i], role, t.results, zone)
  {
    var o, r :| o in s.rules[i].operands && r in s.results && o.role == role && o.resultId == r.id &&
      ResolvesTo(r, zone);
    assert o in t.rules[i].operands && r in t.results;
  }

  lemma AssignShape(scope: Scope, read: seq<Rule>, role: Role, zone: int, stamp: Stamp)
    requires read != [] && Assign(scope, read, role, zone, stamp).Ok?
    ensures var out := Assign(scope, read, role, zone, stamp).value;
      && scope.results <= out.scope.results
      && out.result in out.scope.results && ResolvesTo(out.result, zone)
      && out.operands ==
        NewOperands(RulesWithoutZone(read, role, MatchingResults(scope.results, zone)), role, out.result.id, stamp)
      && out.scope.rules == AddOperands(scope.rules, out.operands)
  {
    MatchingMeaning(scope.results, zone);
    FallbackUnlessMissing(read, role, MatchingResults(scope.results, zone));
  }

  lemma FallbackUnlessMissing(read: seq<Rule>, role: Role, matching: seq<EntityResult>)
    requires read != []
    ensures RulesWithoutZone(read, role, matching) == [] ==> matching != [] && matching[0] in matching
  {
    if RulesWithoutZone(read, role, matching) == [] { FallbackInRange(read, role, matching); }
  }

  /** Nothing stored is lost, manual results stay unique, and every rule has the zone afterwards. */
  lemma AssignCovers(scope: Scope, read: seq<Rule>, role: Role, zone: int, stamp: Stamp)
    requires read != [] && Extends(read, scope.rules)
    requires Assign(scope, read, role, zone, stamp).Ok?
    ensures var out := Assign(scope, read, role, zone, stamp).value;
      && StoreGrows(scope, out.scope)
      && out.result in out.scope.results && ResolvesTo(out.result, zone)
      && forall i :: 0 <= i < |out.scope.rules| ==> HasZone(out.scope.rules[i], role, out.scope.results, zone)
  {
    var out := Assign(scope, read, role, zone, stamp).value;
    var matching := MatchingResults(scope.results, zone);
    var missing := RulesWithoutZone(read, role, matching);
    hide Assign, Extends, HasZone, ResolvesTo;
    AssignShape(scope, read, role, zone, stamp);
    AddOperandsExtends(scope.rules, out.operands);
    ExtendsAt(read, scope.rules);
    ExtendsAt(scope.rules, out.scope.rules);
    forall i: nat | i < |scope.rules| ensures HasZone(out.scope.rules[i], role, out.scope.results, zone) {
      RefersMeaning(read[i], role, scope.results, zone);
      if HasZone(read[i], role, scope.results, zone) {
        HasZoneStays(Scope(read, scope.results), scope, i, role, zone);
        HasZoneStays(scope, out.scope, i, role, zone);
      } else {
        FilterMeaning((rule: Rule) => !Refers(rule, role, matching), read);
        assert read[i] in missing;
        AddressedHasZone(scope.rules, missing, role, out.result, stamp, out.scope.results, zone, i);
      }
    }
  }

  lemma NewOperandsSplit(r: Rule, rest: seq<Rule>, role: Role, resultId: int, stamp: Stamp)
    ensures NewOperands([r] + rest, role, resultId, stamp)
      == [NewOperand(r, role, resultId, stamp)] + NewOperands(rest, role, resultId, stamp)
  {
  }

  lemma {:induction false} NoneAddressed(
    p: Rule -> bool, rules: seq<Rule>, role: Role, resultId: int, stamp: Stamp, id: int)
    requires forall r | r in rules :: r.id != id
    ensures Addressed(NewOperands(Filter(p, rules), role, resultId, stamp), id) == []
  {
    if rules != [] {
      FilterHead(p, rules);
      NoneAddressed(p, rules[1..], role, resultId, stamp, id);
      NewOperandsSplit(rules[0], Filter(p, rules[1..]), role, resultId, stamp);
      assert rules[0].id != id;
      HeadAddressed(NewOperand(rules[0], role, resultId, stamp),
        NewOperands(Filter(p, rules[1..]), role, resultId, stamp), id);
    }
  }

  lemma FilterHead<T>(p: T -> bool, s: seq<T>)
    requires s != []
    ensures Filter(p, s) == if p(s[0]) then [s[0]] + Filter(p, s[1..]) else Filter(p, s[1..])
  {
  }

  lemma HeadAddressed(o: Operand, rest: seq<Operand>, id: int)
    ensures Addressed([o] + rest, id) == (if o.ruleId == id then [o] else []) + Addressed(rest, id)
  {
    assert ([o] + rest)[1..] == rest;
  }

  lemma DistinctTail(rules: seq<Rule>)
    requires DistinctRules(rules) && rules != []
    ensures DistinctRules(rules[1..]) && forall r | r in rules[1..] :: r.id != rules[0].id
  {
  }

  lemma {:induction false} AddressedOnce(
    p: Rule -> bool, rules: seq<Rule>, role: Role, resultId: int, stamp: Stamp, i: nat)
    requires DistinctRules(rules) && i < |rules|
    ensures Addressed(NewOperands(Filter(p, rules), role, resultId, stamp), rules[i].id)
      == if p(rules[i]) then [NewOperand(rules[i], role, resultId, stamp)] else []
  {
    hide DistinctRules, Filter, Addressed, NewOperands;
    var head := NewOperand(rules[0], role, resultId, stamp);
    var rest := NewOperands(Filter(p, rules[1..]), role, resultId, stamp);
    DistinctTail(rules);
    FilterHead(p, rules);
    NewOperandsSplit(rules[0], Filter(p, rules[1..]), role, resultId, stamp);
    HeadAddressed(head, rest, rules[i].id);
    if i == 0 {
      NoneAddressed(p, rules[1..], role, resultId, stamp, rules[0].id);
    } else {
      AddressedOnce(p, rules[1..], role, resultId, stamp, i - 1);
      assert rules[1..][i - 1] == rules[i] && rules[i] in rules[1..];
    }
  }

  /** Exactly the rules read without the zone get exactly one operand; all others stay as they are. */
  lemma AssignAddsExactlyMissing(scope: Scope, read: seq<Rule>, role: Role, zone: int, stamp: Stamp, i: nat)
    requires read != [] && Extends(read, scope.rules) && DistinctRules(scope.rules) && i < |read|
    requires Assign(scope, read, role, zone, stamp).Ok?
    ensures var out := Assign(scope, read, role, zone, stamp).value;
      out.scope.rules[i].operands == scope.rules[i].operands +
        if HasZone(read[i], role, scope.results, zone) then []
          else [Operand(stamp.operandId(read[i].id), read[i].id, role, out.result.id)]
  {
    hide Assign, HasZone, ResolvesTo;
    var matching := MatchingResults(scope.results, zone);
    var out := Assign(scope, read, role, zone, stamp).value;
    AssignShape(scope, read, role, zone, stamp);
    AddOperandsMeaning(scope.rules, out.operands, i);
    RefersMeaning(read[i], role, scope.results, zone);
    AddressedOnce((rule: Rule) => !Refers(rule, role, matching), read, role, out.result.id, stamp, i);
  }

  ghost predicate WellFormed(s: Scope) {
    DistinctRules(s.rules) && DistinctResults(s.results) && AtMostOneManual(s.results)
  }

  /** One more manual result for a zone that has none, under a free id. */
  lemma NewManualKeeps(results: seq<EntityResult>, zone: int, stamp: Stamp)
    requires DistinctResults(results) && AtMostOneManual(results) && !IdTaken(results, stamp.resultId)
    requires forall r | r in results && ResolvesTo(r, zone) :: !IsManual(r)
    ensures DistinctResults(results + [ManualResult(zone, stamp)])
    ensures AtMostOneManual(results + [ManualResult(zone, stamp)])
  {
    forall i | 0 <= i < |results| ensures results[i].id != stamp.resultId { assert results[i] in results; }
  }

  lemma AssignKeepsWellFormed(scope: Scope, read: seq<Rule>, role: Role, zone: int, stamp: Stamp)
    requires read != [] && WellFormed(scope)
    requires Assign(scope, read, role, zone, stamp).Ok?
    ensures WellFormed(Assign(scope, read, role, zone, stamp).value.scope)
  {
    hide AddOperands, NewOperands, DistinctRules, DistinctResults, AtMostOneManual, RulesWithoutZone;
    var out := Assign(scope, read, role, zone, stamp).value;
    MatchingMeaning(scope.results, zone);
    AddOperandsExtends(scope.rules, out.operands);
    if out.scope.results != scope.results {
      NewManualKeeps(scope.results, zone, stamp);
    }
    if out.operands == [] { NoOperands(scope.rules); }
  }

  lemma NoOperands(rules: seq<Rule>)
    ensures AddOperands(rules, []) == rules
  {
  }

  /** Assigning to rules that all have the zone changes nothing, whatever the ids and the clock. */
  lemma AssignedAddsNothing(scope: Scope, role: Role, zone: int, stamp: Stamp)
    requires scope.rules != []
    requires forall i :: 0 <= i < |scope.rules| ==> HasZone(scope.rules[i], role, scope.results, zone)
    ensures var again := Assign(scope, scope.rules, role, zone, stamp);
      again.Ok? && again.value.scope == scope && again.value.operands == []
  {
    var matching := MatchingResults(scope.results, zone);
    FilterMeaning((rule: Rule) => !Refers(rule, role, matching), scope.rules);
    var missing := RulesWithoutZone(scope.rules, role, matching);
    if missing != [] {
      assert missing[0] in missing;
      var i :| 0 <= i < |scope.rules| && scope.rules[i] == missing[0];
      RefersMeaning(scope.rules[i], role, scope.results, zone);
    }
  }

  /** A second command for the same direction and zone is a no-op. */
  lemma AssignTwice(scope: Scope, role: Role, zone: int, stamp: Stamp, later: Stamp)
    requires scope.rules != [] && Assign(scope, scope.rules, role, zone, stamp).Ok?
    ensures var once := Assign(scope, scope.rules, role, zone, stamp).value.scope;
      once.rules != [] && var again := Assign(once, once.rules, role, zone, later);
      again.Ok? && again.value.scope == once && again.value.operands == []
  {
    AssignCovers(scope, scope.rules, role, zone, stamp);
    AssignedAddsNothing(Assign(scope, scope.rules, role, zone, stamp).value.scope, role, zone, later);
  }

  // ----- the whole outcome of one command

  /** Increasing positions of exactly the items that satisfy `p`. */
  ghost predicate PositionsWhere<T(!new)>(p: T -> bool, s: seq<T>, at: seq<nat>) {
    && (forall i, j :: 0 <= i < j < |at| ==> at[i] < at[j])
    && (forall i: nat :: i in at <==> i < |s| && p(s[i]))
  }

  lemma {:induction false} FilterPositions<T(!new)>(p: T -> bool, s: seq<T>) returns (at: seq<nat>)
    ensures PositionsWhere(p, s, at) && |Filter(p, s)| == |at|
    ensures forall k :: 0 <= k < |at| ==> at[k] < |s| && Filter(p, s)[k] == s[at[k]]
  {
    at := [];
    if s != [] {
      var init, n := s[..|s| - 1], |s| - 1;
      at := FilterPositions(p, init);
      assert s == init + [s[n]];
      FilterSnoc(p, init, s[n]);
      assert n !in at by { if n in at {} }
      if p(s[n]) { at := at + [n]; }
    }
  }

  /** A manual result for the zone is stored. */
  ghost predicate ManualThere(results: seq<EntityResult>, zone: int) {
    exists r :: r in results && ResolvesTo(r, zone) && IsManual(r)
  }

  ghost predicate SomeLacks(read: seq<Rule>, role: Role, results: seq<EntityResult>, zone: int) {
    exists i :: 0 <= i < |read| && !HasZone(read[i], role, results, zone)
  }

  /**
   * The result reported: the oldest manual one for the zone; without one, the oldest that resolves to the zone when no
   * rule lacks it, else a new manual one.
   */
  ghost predicate ResultChosen(
    before: seq<EntityResult>, read: seq<Rule>, role: Role, zone: int, stamp: Stamp, after: seq<EntityResult>,
    result: EntityResult)
  {
    && ResolvesTo(result, zone)
    && if ManualThere(before, zone) || !SomeLacks(read, role, before, zone) then
         && after == before && result in before
         && (ManualThere(before, zone) ==> IsManual(result))
         && forall r | r in before && ResolvesTo(r, zone) && (ManualThere(before, zone) ==> IsManual(r)) ::
              StrLe(result.createdAt, r.createdAt)
       else
         && after == before + [result] && IsManual(result)
         && result.id == stamp.resultId && result.createdAt == stamp.createdAt
  }

  /** One operand for each rule read without the zone, in rule order, and no other operand. */
  ghost predicate OperandsFor(
    read: seq<Rule>, role: Role, results: seq<EntityResult>, zone: int, stamp: Stamp, resultId: int,
    operands: seq<Operand>, at: seq<nat>)
  {
    && |operands| == |at|
    && (forall i, j :: 0 <= i < j < |at| ==> at[i] < at[j])
    && (forall i: nat :: i in at <==> i < |read| && !HasZone(read[i], role, results, zone))
    && forall k :: 0 <= k < |at| ==>
         at[k] < |read| && operands[k] == Operand(stamp.operandId(read[at[k]].id), read[at[k]].id, role, resultId)
  }

  lemma {:induction false} FilterSorted<T(!new)>(key: T -> string, p: T -> bool, s: seq<T>)
    requires Sorted(key, s)
    ensures Sorted(key, Filter(p, s))
  {
    if s != [] {
      assert s == [s[0]] + s[1..];
      FilterSorted(key, p, s[1..]);
      FilterMeaning(p, s[1..]);
      var rest := Filter(p, s[1..]);
      forall j | 0 <= j < |rest| ensures StrLe(key(s[0]), key(rest[j])) {
        assert rest[j] in rest;
        var k :| 0 <= k < |s| - 1 && s[1..][k] == rest[j];
        assert s[k + 1] == rest[j];
      }
    }
  }

  /** Matching results come oldest first. */
  lemma MatchingOldestFirst(results: seq<EntityResult>, zone: int)
    ensures Sorted(CreatedAt, MatchingResults(results, zone))
  {
    var zones := Filter((r: EntityResult) => r.entityType.ZoneEntity?, results);
    SortBySorts(CreatedAt, zones);
    var matched := (r: EntityResult) => r.status.Matched? && r.selected == Some(zone);
    FilterSorted(CreatedAt, matched, SortBy(CreatedAt, zones));
  }

  lemma OldestOf(results: seq<EntityResult>, zone: int, k: nat, r: EntityResult)
    requires k < |MatchingResults(results, zone)| && r in results && ResolvesTo(r, zone)
    requires forall j :: 0 <= j < k ==> MatchingResults(results, zone)[j] != r
    ensures StrLe(MatchingResults(results, zone)[k].createdAt, r.createdAt)
  {
    var matching := MatchingResults(results, zone);
    MatchingMeaning(results, zone);
    MatchingOldestFirst(results, zone);
    hide MatchingResults;
    var j :| 0 <= j < |matching| && matching[j] == r;
    if j == k { StrLeTotal(r.createdAt, r.createdAt); }
    assert k < j ==> StrLe(CreatedAt(matching[k]), CreatedAt(matching[j]));
  }

  lemma LacksMeaning(read: seq<Rule>, role: Role, results: seq<EntityResult>, zone: int)
    ensures RulesWithoutZone(read, role, MatchingResults(results, zone)) != [] <==> SomeLacks(read, role, results, zone)
  {
    hide HasZone, MatchingResults;
    var matching := MatchingResults(results, zone);
    FilterMeaning((rule: Rule) => !Refers(rule, role, matching), read);
    var missing := RulesWithoutZone(read, role, matching);
    forall i | 0 <= i < |read| ensures Refers(read[i], role, matching) <==> HasZone(read[i], role, results, zone) {
      RefersMeaning(read[i], role, results, zone);
    }
    hide Refers;
    if missing != [] {
      assert missing[0] in missing;
      var i :| 0 <= i < |read| && read[i] == missing[0];
    }
    if SomeLacks(read, role, results, zone) {
      var i :| 0 <= i < |read| && !HasZone(read[i], role, results, zone);
      assert read[i] in read && read[i] in missing;
    }
  }

  lemma ManualMeaning(results: seq<EntityResult>, zone: int)
    ensures FirstManual(MatchingResults(results, zone)).Some? <==> ManualThere(results, zone)
    ensures FirstManual(MatchingResults(results, zone)).Some? ==>
      var manual := FirstManual(MatchingResults(results, zone)).value;
      && manual in results && ResolvesTo(manual, zone) && IsManual(manual)
      && forall r | r in results && ResolvesTo(r, zone) && IsManual(r) :: StrLe(manual.createdAt, r.createdAt)
  {
    var matching := MatchingResults(results, zone);
    MatchingMeaning(results, zone);
    hide MatchingResults, ResolvesTo, IsManual;
    if FirstManual(matching).Some? {
      var k :| 0 <= k < |matching| && matching[k] == FirstManual(matching).value && IsManual(matching[k])
        && forall j :: 0 <= j < k ==> !IsManual(matching[j]);
      assert matching[k] in matching;
      forall r | r in results && ResolvesTo(r, zone) && IsManual(r) ensures StrLe(matching[k].createdAt, r.createdAt) {
        OldestOf(results, zone, k, r);
      }
    }
  }

  /** When a command fails: it needs a new manual result and its id is taken. */
  lemma AssignFails(scope: Scope, read: seq<Rule>, role: Role, zone: int, stamp: Stamp)
    requires read != []
    ensures Assign(scope, read, role, zone, stamp) == Err(ResultExists) <==>
      && SomeLacks(read, role, scope.results, zone) && !ManualThere(scope.results, zone)
      && IdTaken(scope.results, stamp.resultId)
    ensures Assign(scope, read, role, zone, stamp).Err? ==> Assign(scope, read, role, zone, stamp) == Err(ResultExists)
  {
    hide MatchingResults, SomeLacks, ManualThere, RulesWithoutZone, Attach;
    LacksMeaning(read, role, scope.results, zone);
    ManualMeaning(scope.results, zone);
    FallbackUnlessMissing(read, role, MatchingResults(scope.results, zone));
  }

  lemma AssignChooses(scope: Scope, read: seq<Rule>, role: Role, zone: int, stamp: Stamp)
    requires read != [] && Assign(scope, read, role, zone, stamp).Ok?
    ensures var out := Assign(scope, read, role, zone, stamp).value;
      ResultChosen(scope.results, read, role, zone, stamp, out.scope.results, out.result)
  {
    var matching := MatchingResults(scope.results, zone);
    LacksMeaning(read, role, scope.results, zone);
    ManualMeaning(scope.results, zone);
    FallbackUnlessMissing(read, role, matching);
    MatchingMeaning(scope.results, zone);
    hide MatchingResults, SomeLacks, ManualThere, RulesWithoutZone, FirstManual, AddOperands, NewOperands;
    forall r | matching != [] && r in scope.results && ResolvesTo(r, zone)
      ensures StrLe(matching[0].createdAt, r.createdAt)
    {
      OldestOf(scope.results, zone, 0, r);
    }
  }

  lemma AssignOperands(scope: Scope, read: seq<Rule>, role: Role, zone: int, stamp: Stamp) returns (at: seq<nat>)
    requires read != [] && Assign(scope, read, role, zone, stamp).Ok?
    ensures var out := Assign(scope, read, role, zone, stamp).value;
      OperandsFor(read, role, scope.results, zone, stamp, out.result.id, out.operands, at)
  {
    hide Assign, HasZone, ResolvesTo;
    var matching := MatchingResults(scope.results, zone);
    AssignShape(scope, read, role, zone, stamp);
    at := FilterPositions((rule: Rule) => !Refers(rule, role, matching), read);
    forall i: nat | i < |read|
      ensures Refers(read[i], role, matching) <==> HasZone(read[i], role, scope.results, zone)
    {
      RefersMeaning(read[i], role, scope.results, zone);
    }
  }

  /** The operands of one role, in order. */
  function InRole(rule: Rule, role: Role): seq<Operand> { Filter((o: Operand) => o.role == role, rule.operands) }

  lemma {:induction false} FilterConcat<T(!new)>(p: T -> bool, s: seq<T>, t: seq<T>)
    ensures Filter(p, s + t) == Filter(p, s) + Filter(p, t)
  {
    if s == [] {
      assert s + t == t;
    } else {
      hide Filter;
      var whole := s + t;
      assert whole[0] == s[0] && whole[1..] == s[1..] + t;
      FilterHead(p, s);
      FilterHead(p, whole);
      FilterConcat(p, s[1..], t);
    }
  }

  lemma {:induction false} FilterNone<T(!new)>(p: T -> bool, s: seq<T>)
    requires forall x | x in s :: !p(x)
    ensures Filter(p, s) == []
  {
    if s != [] { FilterNone(p, s[1..]); }
  }

  /** Operands of other roles stay as they are. */
  lemma OtherRolesKept(scope: Scope, read: seq<Rule>, role: Role, zone: int, stamp: Stamp, i: nat, other: Role)
    requires read != [] && Assign(scope, read, role, zone, stamp).Ok? && i < |scope.rules| && other != role
    ensures var rules := Assign(scope, read, role, zone, stamp).value.scope.rules;
      |rules| == |scope.rules| && rules[i].id == scope.rules[i].id
      && InRole(rules[i], other) == InRole(scope.rules[i], other)
  {
    hide Assign, HasZone, ResolvesTo, AddOperands;
    var out := Assign(scope, read, role, zone, stamp).value;
    var has := (o: Operand) => o.role == other;
    AssignShape(scope, read, role, zone, stamp);
    AddOperandsMeaning(scope.rules, out.operands, i);
    var added := Addressed(out.operands, scope.rules[i].id);
    FilterMeaning((o: Operand) => o.ruleId == scope.rules[i].id, out.operands);
    FilterNone(has, added);
    FilterConcat(has, scope.rules[i].operands, added);
  }

  /** What one command does to a scope and answers, told without the functions that compute it. */
  ghost predicate Assigned(
    before: Scope, role: Role, zone: int, stamp: Stamp, after: Scope, result: EntityResult, operands: seq<Operand>)
  {
    && StoreGrows(before, after) && result in after.results
    && ResultChosen(before.results, before.rules, role, zone, stamp, after.results, result)
    && (exists at :: OperandsFor(before.rules, role, before.results, zone, stamp, result.id, operands, at))
    && forall i :: 0 <= i < |before.rules| ==> RuleAssigned(before, role, zone, stamp, after, result, i)
  }

  /** The rule has the zone in this role, other roles are as before, and it got an operand only if it lacked it. */
  ghost predicate RuleAssigned(
    before: Scope, role: Role, zone: int, stamp: Stamp, after: Scope, result: EntityResult, i: nat)
    requires i < |before.rules| == |after.rules|
  {
    var old_, new_ := before.rules[i], after.rules[i];
    && HasZone(new_, role, after.results, zone)
    && (forall other | other != role :: InRole(new_, other) == InRole(old_, other))
    && (DistinctRules(before.rules) ==>
          new_.operands == old_.operands + if HasZone(old_, role, before.results, zone) then []
            else [Operand(stamp.operandId(old_.id), old_.id, role, result.id)])
  }

  lemma AssignIsAssigned(scope: Scope, role: Role, zone: int, stamp: Stamp)
    requires scope.rules != [] && Assign(scope, scope.rules, role, zone, stamp).Ok?
    ensures var out := Assign(scope, scope.rules, role, zone, stamp).value;
      Assigned(scope, role, zone, stamp, out.scope, out.result, out.operands)
  {
    hide Assign, HasZone, ResultChosen, OperandsFor, InRole, DistinctRules;
    var out := Assign(scope, scope.rules, role, zone, stamp).value;
    AssignCovers(scope, scope.rules, role, zone, stamp);
    AssignChooses(scope, scope.rules, role, zone, stamp);
    var at := AssignOperands(scope, scope.rules, role, zone, stamp);
    forall i: nat | i < |scope.rules| ensures RuleAssigned(scope, role, zone, stamp, out.scope, out.result, i) {
      forall other | other != role ensures InRole(out.scope.rules[i], other) == InRole(scope.rules[i], other) {
        OtherRolesKept(scope, scope.rules, role, zone, stamp, i, other);
      }
      if DistinctRules(scope.rules) {
        AssignAddsExactlyMissing(scope, scope.rules, role, zone, stamp, i);
      }
    }
  }

  // ----- commands that overlap: each reads the rules, waits for the SD-WAN, then assigns

  datatype Waiting = Waiting(read: seq<Rule>, role: Role, zone: int)

  datatype Config = Config(scope: Scope, waiting: seq<Waiting>)

  datatype Step = Read(role: Role, zone: int) | Finish(command: nat, stamp: Stamp)

  function Perform(c: Config, step: Step): Config {
    match step
    case Read(role, zone) =>
      if c.scope.rules == [] then c else c.(waiting := c.waiting + [Waiting(c.scope.rules, role, zone)])
    case Finish(k, stamp) =>
      if k >= |c.waiting| || c.waiting[k].read == [] then c
      else
        var w := c.waiting[k];
        var done := Assign(c.scope, w.read, w.role, w.zone, stamp);
        Config(if done.Ok? then done.value.scope else c.scope, c.waiting[..k] + c.waiting[k + 1..])
  }

  function Run(c: Config, steps: seq<Step>): Config
    decreases steps
  {
    if steps == [] then c else Run(Perform(c, steps[0]), steps[1..])
  }

  ghost predicate Inv(c: Config) {
    WellFormed(c.scope) && forall w | w in c.waiting :: Extends(w.read, c.scope.rules)
  }

  lemma PerformKeepsInv(c: Config, step: Step)
    requires Inv(c)
    ensures Inv(Perform(c, step)) && StoreGrows(c.scope, Perform(c, step).scope)
  {
    hide WellFormed, Assign;
    if step.Finish? && step.command < |c.waiting| && c.waiting[step.command].read != [] {
      var w := c.waiting[step.command];
      assert w in c.waiting;
      if Assign(c.scope, w.read, w.role, w.zone, step.stamp).Ok? {
        AssignCovers(c.scope, w.read, w.role, w.zone, step.stamp);
        AssignKeepsWellFormed(c.scope, w.read, w.role, w.zone, step.stamp);
      }
    }
  }

  /** Over every interleaving: unique manual results, and no rule, operand or result is ever lost. */
  lemma {:induction false} RunKeepsInv(c: Config, steps: seq<Step>)
    requires Inv(c)
    ensures Inv(Run(c, steps)) && StoreGrows(c.scope, Run(c, steps).scope)
    decreases steps
  {
    hide Inv, Perform;
    if steps != [] {
      PerformKeepsInv(c, steps[0]);
      RunKeepsInv(Perform(c, steps[0]), steps[1..]);
    }
  }

  /** Once a command finished, its zone stays on every rule, whatever else runs. */
  lemma FinishedStays(c: Config, k: nat, stamp: Stamp, steps: seq<Step>, i: nat)
    requires Inv(c) && k < |c.waiting| && c.waiting[k].read != [] && i < |c.scope.rules|
    requires !IdTaken(c.scope.results, stamp.resultId)
    ensures var end := Run(Perform(c, Finish(k, stamp)), steps).scope;
      |end.rules| == |c.scope.rules| && HasZone(end.rules[i], c.waiting[k].role, end.results, c.waiting[k].zone)
  {
    hide Inv, Run;
    var w, next := c.waiting[k], Perform(c, Finish(k, stamp));
    WaitingExtends(c, k);
    AssignCovers(c.scope, w.read, w.role, w.zone, stamp);
    PerformKeepsInv(c, Finish(k, stamp));
    RunKeepsInv(next, steps);
    HasZoneStays(next.scope, Run(next, steps).scope, i, w.role, w.zone);
  }

  lemma WaitingExtends(c: Config, k: nat)
    requires Inv(c) && k < |c.waiting|
    ensures Extends(c.waiting[k].read, c.scope.rules)
  {
    assert c.waiting[k] in c.waiting;
  }

  // ----- when overlapping commands add a zone twice

  /** A command for this role and zone finishes at this step. */
  ghost predicate FinishesFor(c: Config, step: Step, role: Role, zone: int) {
    && step.Finish? && step.command < |c.waiting| && c.waiting[step.command].read != []
    && c.waiting[step.command].role == role && c.waiting[step.command].zone == zone
    && Assign(c.scope, c.waiting[step.command].read, role, zone, step.stamp).Ok?
  }

  /** Among the steps from `c`, the `j`-th finishes a command for this role and zone. */
  ghost predicate FinishedAt(c: Config, steps: seq<Step>, j: nat, role: Role, zone: int) {
    j < |steps| && FinishesFor(Run(c, steps[..j]), steps[j], role, zone)
  }

  lemma {:induction false} RunSnoc(c: Config, steps: seq<Step>, step: Step)
    ensures Run(c, steps + [step]) == Perform(Run(c, steps), step)
    decreases steps
  {
    hide Perform;
    if steps == [] {
      assert [step][1..] == [];
    } else {
      RunSnoc(Perform(c, steps[0]), steps[1..], step);
      assert (steps + [step])[1..] == steps[1..] + [step];
    }
  }

  /** A rule whose operands a step changes got one operand, for a command that finished. */
  lemma StepAddsOperand(c: Config, step: Step, i: nat, o: Operand)
    requires Inv(c) && i < |c.scope.rules|
    requires |Perform(c, step).scope.rules| == |c.scope.rules| && o in Perform(c, step).scope.rules[i].operands
    ensures o in c.scope.rules[i].operands || exists zone, r ::
      && FinishesFor(c, step, o.role, zone)
      && r in Perform(c, step).scope.results && r.id == o.resultId && ResolvesTo(r, zone)
  {
    if o !in c.scope.rules[i].operands {
      hide Assign, HasZone, ResolvesTo;
      var w := c.waiting[step.command];
      WaitingExtends(c, step.command);
      AssignAddsExactlyMissing(c.scope, w.read, w.role, w.zone, step.stamp, i);
      AssignCovers(c.scope, w.read, w.role, w.zone, step.stamp);
      var out := Assign(c.scope, w.read, w.role, w.zone, step.stamp).value;
      assert o == NewOperand(w.read[i], w.role, out.result.id, step.stamp);
      assert FinishesFor(c, step, o.role, w.zone);
    }
  }

  /** What an operand added during a run refers to, and the command that added it. */
  ghost predicate AddedFor(c: Config, steps: seq<Step>, o: Operand, j: nat, zone: int, r: EntityResult) {
    && FinishedAt(c, steps, j, o.role, zone)
    && r in Run(c, steps).scope.results && r.id == o.resultId && ResolvesTo(r, zone)
  }

  lemma {:induction false} OperandOrigin(c: Config, steps: seq<Step>, i: nat, o: Operand)
    requires Inv(c) && i < |c.scope.rules|
    requires |Run(c, steps).scope.rules| == |c.scope.rules| && o in Run(c, steps).scope.rules[i].operands
    ensures o in c.scope.rules[i].operands || exists j: nat, zone, r :: AddedFor(c, steps, o, j, zone, r)
  {
    if steps != [] {
      var n := |steps| - 1;
      var init, last := steps[..n], steps[n];
      var before := Run(c, init);
      assert steps == init + [last];
      RunSnoc(c, init, last);
      RunKeepsInv(c, init);
      hide Inv, Run, Perform, FinishesFor, ResolvesTo;
      PerformKeepsInv(before, last);
      StepAddsOperand(before, last, i, o);
      if o in before.scope.rules[i].operands {
        OperandOrigin(c, init, i, o);
        if o !in c.scope.rules[i].operands {
          var j: nat, zone, r :| AddedFor(c, init, o, j, zone, r);
          assert steps[..j] == init[..j] && steps[j] == init[j];
          assert AddedFor(c, steps, o, j, zone, r);
        }
      } else {
        var zone, r :| FinishesFor(before, last, o.role, zone)
          && r in Perform(before, last).scope.results && r.id == o.resultId && ResolvesTo(r, zone);
        assert AddedFor(c, steps, o, n, zone, r);
      }
    }
  }

  /** After a command for a role and zone finished, every rule has the zone for good. */
  lemma FinishedGivesZone(c: Config, steps: seq<Step>, j: nat, role: Role, zone: int, i: nat)
    requires Inv(c) && FinishedAt(c, steps, j, role, zone) && i < |c.scope.rules|
    ensures |Run(c, steps).scope.rules| == |c.scope.rules|
    ensures HasZone(Run(c, steps).scope.rules[i], role, Run(c, steps).scope.results, zone)
  {
    var before := Run(c, steps[..j]);
    RunKeepsInv(c, steps[..j]);
    var w := before.waiting[steps[j].command];
    WaitingExtends(before, steps[j].command);
    AssignCovers(before.scope, w.read, role, zone, steps[j].stamp);
    var after := Perform(before, steps[j]);
    assert HasZone(after.scope.rules[i], role, after.scope.results, zone);
    PerformKeepsInv(before, steps[j]);
    hide Inv, Perform, HasZone, FinishedAt, Assign;
    RunKeepsInv(after, steps[j + 1..]);
    RunThrough(c, steps, j);
    HasZoneStays(after.scope, Run(after, steps[j + 1..]).scope, i, role, zone);
  }

  lemma {:induction false} RunThrough(c: Config, steps: seq<Step>, j: nat)
    requires j < |steps|
    ensures Run(c, steps) == Run(Perform(Run(c, steps[..j]), steps[j]), steps[j + 1..])
    decreases j
  {
    hide Perform;
    if j == 0 {
      assert steps[..0] == [];
    } else {
      RunThrough(Perform(c, steps[0]), steps[1..], j - 1);
      assert steps[1..][..j - 1] == steps[..j][1..] && steps[1..][j..] == steps[j + 1..];
    }
  }

  /**
   * A command reads its rules, others run, and then it finishes. It gives a rule that has the zone by then a further
   * operand exactly when the rule as read lacks the zone and a command for the same role and zone finished between.
   */
  lemma DoubledExactly(start: Config, role: Role, zone: int, between: seq<Step>, k: nat, stamp: Stamp, i: nat)
    requires Inv(start) && i < |start.scope.rules|
    requires var c := Run(Perform(start, Read(role, zone)), between);
      && k < |c.waiting| && c.waiting[k] == Waiting(start.scope.rules, role, zone)
      && Assign(c.scope, start.scope.rules, role, zone, stamp).Ok?
    ensures var c := Run(Perform(start, Read(role, zone)), between);
      var next := Perform(c, Finish(k, stamp)).scope;
      && |next.rules| == |c.scope.rules| == |start.scope.rules|
      && (HasZone(c.scope.rules[i], role, c.scope.results, zone)
          && next.rules[i].operands != c.scope.rules[i].operands
          <==>
          !HasZone(start.scope.rules[i], role, c.scope.results, zone)
          && exists j: nat :: FinishedAt(Perform(start, Read(role, zone)), between, j, role, zone))
  {
    var first := Perform(start, Read(role, zone));
    var c := Run(first, between);
    PerformKeepsInv(start, Read(role, zone));
    RunKeepsInv(first, between);
    WaitingExtends(c, k);
    AssignAddsExactlyMissing(c.scope, start.scope.rules, role, zone, stamp, i);
    PerformKeepsInv(c, Finish(k, stamp));
    hide Inv, Run, FinishedAt, Assign, Extends;
    if j: nat :| FinishedAt(first, between, j, role, zone) {
      FinishedGivesZone(first, between, j, role, zone, i);
    }
    if HasZone(c.scope.rules[i], role, c.scope.results, zone)
       && !HasZone(start.scope.rules[i], role, c.scope.results, zone) {
      ZoneCameBetween(first, between, role, zone, i);
    }
  }

  lemma ZoneCameBetween(c: Config, steps: seq<Step>, role: Role, zone: int, i: nat)
    requires Inv(c) && i < |c.scope.rules| == |Run(c, steps).scope.rules|
    requires HasZone(Run(c, steps).scope.rules[i], role, Run(c, steps).scope.results, zone)
    requires !HasZone(c.scope.rules[i], role, Run(c, steps).scope.results, zone)
    ensures exists j: nat :: FinishedAt(c, steps, j, role, zone)
  {
    var end := Run(c, steps).scope;
    var o, r :| o in end.rules[i].operands && r in end.results && o.role == role && o.resultId == r.id
      && ResolvesTo(r, zone);
    RunKeepsInv(c, steps);
    OperandOrigin(c, steps, i, o);
    var j: nat, other, s :| AddedFor(c, steps, o, j, other, s);
    SameResult(end.results, r, s);
    assert FinishedAt(c, steps, j, role, zone);
  }

  lemma SameResult(results: seq<EntityResult>, r: EntityResult, s: EntityResult)
    requires DistinctResults(results) && r in results && s in results && r.id == s.id
    ensures r == s
  {
    var i :| 0 <= i < |results| && results[i] == r;
    var j :| 0 <= j < |results| && results[j] == s;
    assert i == j;
  }

  /** Overlapping commands may still add the same zone twice to a rule: the second one read it too early. */
  lemma OverlapAddsTwice(ruleId: int, role: Role, zone: int, stamp: Stamp, later: Stamp)
    ensures var c := Config(Scope([Rule(ruleId, [])], []), []);
      var end := Run(c, [Read(role, zone), Read(role, zone), Finish(0, stamp), Finish(0, later)]).scope;
      |end.rules| == 1 && |end.rules[0].operands| == 2
  {
    var rules := [Rule(ruleId, [])];
    var w := Waiting(rules, role, zone);
    var start := Scope(rules, []);
    var once := FirstAssigned(ruleId, role, zone, stamp);
    hide HasZone, ResolvesTo, Assign;
    AssignAddsExactlyMissing(once, rules, role, zone, later, 0);
    AssignCovers(once, rules, role, zone, later);
    NoOperandNoZone(ruleId, role, once.results, zone);
    FourSteps(Config(start, []), Read(role, zone), Read(role, zone), Finish(0, stamp), Finish(0, later));
    assert [w] + [w] == [w, w] && [w, w][..0] + [w, w][1..] == [w];
  }

  lemma NoOperandNoZone(ruleId: int, role: Role, results: seq<EntityResult>, zone: int)
    ensures !HasZone(Rule(ruleId, []), role, results, zone)
  {
  }

  /** The scope after the first of two commands for a rule without operands; the second one can be answered too. */
  lemma FirstAssigned(ruleId: int, role: Role, zone: int, stamp: Stamp) returns (once: Scope)
    ensures var rules := [Rule(ruleId, [])];
      && Assign(Scope(rules, []), rules, role, zone, stamp).Ok?
      && once == Assign(Scope(rules, []), rules, role, zone, stamp).value.scope
      && |once.rules| == 1 && |once.rules[0].operands| == 1 && Extends(rules, once.rules) && DistinctRules(once.rules)
      && forall later :: Assign(once, rules, role, zone, later).Ok?
  {
    var rules := [Rule(ruleId, [])];
    var start := Scope(rules, []);
    MatchingMeaning([], zone);
    assert FirstManual(MatchingResults([], zone)).None?;
    once := Assign(start, rules, role, zone, stamp).value.scope;
    AssignCovers(start, rules, role, zone, stamp);
    AssignAddsExactlyMissing(start, rules, role, zone, stamp, 0);
    ManualStays(start, rules, role, zone, stamp);
  }

  /** After a rule lacked the zone, a manual result for it is there, so no new one can clash. */
  lemma ManualStays(scope: Scope, read: seq<Rule>, role: Role, zone: int, stamp: Stamp)
    requires read != [] && Assign(scope, read, role, zone, stamp).Ok?
    requires RulesWithoutZone(read, role, MatchingResults(scope.results, zone)) != []
    ensures FirstManual(MatchingResults(Assign(scope, read, role, zone, stamp).value.scope.results, zone)).Some?
  {
    var out := Assign(scope, read, role, zone, stamp).value;
    AssignShape(scope, read, role, zone, stamp);
    MatchingMeaning(out.scope.results, zone);
    assert IsManual(out.result);
  }

  lemma FourSteps(c: Config, a: Step, b: Step, d: Step, e: Step)
    ensures Run(c, [a, b, d, e]) == Perform(Perform(Perform(Perform(c, a), b), d), e)
  {
    hide Perform;
    var c1 := Perform(c, a);
    var c2 := Perform(c1, b);
    var c3 := Perform(c2, d);
    assert [a, b, d, e][1..] == [b, d, e] && [b, d, e][1..] == [d, e] && [d, e][1..] == [e] && [e][1..] == [];
    assert Run(c3, [e]) == Run(Perform(c3, e), []);
    assert Run(c2, [d, e]) == Run(c3, [e]);
    assert Run(c1, [b, d, e]) == Run(c2, [d, e]);
  }

  // ----- the use case over its stored scopes

  class AssignZoneForScope {
    var scopes: map<int, Scope>

    constructor (scopes: map<int, Scope>)
      ensures this.scopes == scopes
    {
      this.scopes := scopes;
    }

    method AddResult(id: int, result: EntityResult) returns (done: bool)
      requires id in scopes
      modifies this
      ensures done == !IdTaken(old(scopes)[id].results, result.id)
      ensures scopes == if done
        then old(scopes)[id := old(scopes)[id].(results := old(scopes)[id].results + [result])] else old(scopes)
    {
      var scope := scopes[id];
      done := true;
      for i := 0 to |scope.results|
        invariant done ==> forall r | r in scope.results[..i] :: r.id != result.id
        invariant !done ==> IdTaken(scope.results, result.id)
      {
        if scope.results[i].id == result.id { done := false; }
      }
      if done { scopes := scopes[id := scope.(results := scope.results + [result])]; }
    }

    method AddRuleOperand(id: int, operand: Operand)
      requires id in scopes
      modifies this
      ensures scopes == old(scopes)[id := old(scopes)[id].(rules := AddOperand(old(scopes)[id].rules, operand))]
    {
      scopes := scopes[id := scopes[id].(rules := AddOperand(scopes[id].rules, operand))];
    }

    method GetOrCreateManualResult(
      id: int, zone: int, matching: seq<EntityResult>, stamp: Stamp) returns (r: Result<EntityResult, Failure>)
      requires id in scopes
      modifies this
      ensures FirstManual(matching).Some? ==> r == Ok(FirstManual(matching).value) && scopes == old(scopes)
      ensures FirstManual(matching).None? && IdTaken(old(scopes)[id].results, stamp.resultId)
        ==> r == Err(ResultExists) && scopes == old(scopes)
      ensures FirstManual(matching).None? && !IdTaken(old(scopes)[id].results, stamp.resultId)
        ==> (&& r == Ok(ManualResult(zone, stamp))
             && scopes ==
               old(scopes)[id := old(scopes)[id].(results := old(scopes)[id].results + [ManualResult(zone, stamp)])])
    {
      var manual := FirstManual(matching);
      if manual.Some? { return Ok(manual.value); }
      var done := AddResult(id, ManualResult(zone, stamp));
      r := if done then Ok(ManualResult(zone, stamp)) else Err(ResultExists);
    }

    method AddZoneOperands(
      id: int, rules: seq<Rule>, role: Role, resultId: int, stamp: Stamp) returns (operands: seq<Operand>)
      requires id in scopes
      modifies this
      ensures operands == NewOperands(rules, role, resultId, stamp)
      ensures scopes == old(scopes)[id := old(scopes)[id].(rules := AddOperands(old(scopes)[id].rules, operands))]
    {
      operands := [];
      for i := 0 to |rules|
        invariant id in scopes && operands == NewOperands(rules, role, resultId, stamp)[..i]
        invariant scopes == old(scopes)[id := old(scopes)[id].(rules := AddOperands(old(scopes)[id].rules, operands))]
      {
        var operand := NewOperand(rules[i], role, resultId, stamp);
        AddRuleOperand(id, operand);
        assert (operands + [operand])[..|operands|] == operands;
        operands := operands + [operand];
      }
    }

    /** The assignment itself, once scope, rules and zone are known to be there. */
    method AssignTo(id: int, role: Role, zone: int, stamp: Stamp)
      returns (r: Result<(EntityResult, seq<Operand>), Failure>)
      requires id in scopes && scopes[id].rules != []
      modifies this
      ensures match Assign(old(scopes)[id], old(scopes)[id].rules, role, zone, stamp)
        case Err(f) => r == Err(f) && scopes == old(scopes)
        case Ok(out) => r == Ok((out.result, out.operands)) && scopes == old(scopes)[id := out.scope]
    {
      var scope := scopes[id];
      var matching := MatchingResults(scope.results, zone);
      var missing := RulesWithoutZone(scope.rules, role, matching);
      if missing == [] {
        FallbackInRange(scope.rules, role, matching);
        var existing := FirstManual(matching);
        return Ok((if existing.Some? then existing.value else matching[0], []));
      }
      hide MatchingResults, RulesWithoutZone, AddOperands, NewOperands;
      var manual := GetOrCreateManualResult(id, zone, matching, stamp);
      if manual.Err? { return Err(manual.error); }
      var operands := AddZoneOperands(id, missing, role, manual.value.id, stamp);
      r := Ok((manual.value, operands));
    }

    /** `known` holds the zones the scope's SD-WAN has. */
    method Execute(id: int, direction: Direction, zone: int, known: set<int>, stamp: Stamp)
      returns (r: Result<(EntityResult, seq<Operand>), Failure>)
      modifies this
      ensures id !in old(scopes) ==> r == Err(ScopeNotFound)
      ensures id in old(scopes) && old(scopes)[id].rules == [] ==> r == Err(NoRules)
      ensures id in old(scopes) && old(scopes)[id].rules != [] && zone !in known ==> r == Err(ZoneNotFound)
      ensures r.Err? ==> scopes == old(scopes)
      ensures id in old(scopes) && old(scopes)[id].rules != [] && zone in known ==>
        match Assign(old(scopes)[id], old(scopes)[id].rules, RoleOf(direction), zone, stamp)
        case Err(f) => r == Err(f)
        case Ok(out) => r == Ok((out.result, out.operands)) && scopes == old(scopes)[id := out.scope]
      ensures r.Ok? ==>
        && id in old(scopes) && id in scopes && scopes == old(scopes)[id := scopes[id]]
        && var role := if direction.FromZone? then SrcZone else DstZone;
           Assigned(old(scopes)[id], role, zone, stamp, scopes[id], r.value.0, r.value.1)
      ensures r == Err(ResultExists) <==>
        && id in old(scopes) && old(scopes)[id].rules != [] && zone in known
        && var scope, role := old(scopes)[id], if direction.FromZone? then SrcZone else DstZone;
           && SomeLacks(scope.rules, role, scope.results, zone) && !ManualThere(scope.results, zone)
           && IdTaken(scope.results, stamp.resultId)
    {
      if id !in scopes { return Err(ScopeNotFound); }
      var scope := scopes[id];
      if scope.rules == [] { return Err(NoRules); }
      if zone !in known { return Err(ZoneNotFound); }
      var role := RoleOf(direction);
      AssignFails(scope, scope.rules, role, zone, stamp);
      if Assign(scope, scope.rules, role, zone, stamp).Ok? { AssignIsAssigned(scope, role, zone, stamp); }
      hide Assigned, SomeLacks, ManualThere, Assign;
      r := AssignTo(id, role, zone, stamp);
    }
  }
}
