/** Comparison of a planned rule with the existing rules: exact, then covered, then new. */
module Comparer {
  import opened CatalogModels
  import opened Rules
  import opened RuleMeaning
  import opened Coverage
  import opened ExactSignature
  import opened RuleResolver

  datatype SdwanRule = SdwanRule(id: int, body: RuleBody)

  datatype ResolvedRule = ResolvedRule(rule: SdwanRule, values: ResolvedValues)

  datatype Excluded = Excluded(id: int, reason: NormalizationError)

  datatype CompareResult =
    | MatchError(reason: NormalizationError)
    | ExactMatch(id: int)
    | CoveredMatch(coveringId: int, details: seq<CoverageDetail>)
    | NewRule

  // ----- the specification: a scan of the catalog rules in order

  ghost function ResolvedRules(prim: Primitives, c: Catalog, rules: seq<SdwanRule>): seq<ResolvedRule>
    requires CatalogChecked(c)
  {
    if rules == [] then []
    else
      var init, last := ResolvedRules(prim, c, rules[..|rules| - 1]), rules[|rules| - 1];
      match ResolveIn(prim, c, last.body)
      case Err(_) => init
      case Ok(values) => init + [ResolvedRule(last, values)]
  }

  ghost function ExcludedRules(prim: Primitives, c: Catalog, rules: seq<SdwanRule>): seq<Excluded>
    requires CatalogChecked(c)
  {
    if rules == [] then []
    else
      var init, last := ExcludedRules(prim, c, rules[..|rules| - 1]), rules[|rules| - 1];
      match ResolveIn(prim, c, last.body)
      case Err(e) => init + [Excluded(last.id, e)]
      case Ok(_) => init
  }

  function SignatureOfRule(prim: Primitives, r: ResolvedRule): string { ExactSignatureOf(prim, r.values.normalized) }

  /** What the index lists under a signature. */
  function WithSignature(prim: Primitives, resolved: seq<ResolvedRule>, signature: string): seq<ResolvedRule> {
    if resolved == [] then []
    else
      var init, last := WithSignature(prim, resolved[..|resolved| - 1], signature), resolved[|resolved| - 1];
      if SignatureOfRule(prim, last) == signature then init + [last] else init
  }

  function FirstCover(
    resolved: seq<ResolvedRule>, planned: ResolvedValues): Option<(ResolvedRule, seq<CoverageDetail>)> {
    if resolved == [] then None
    else
      var a := AnalyzeCoverage(resolved[0].values, planned);
      if a.isCovered then Some((resolved[0], a.details)) else FirstCover(resolved[1..], planned)
  }

  ghost function Compare(prim: Primitives, c: Catalog, rules: seq<SdwanRule>, draft: RuleBody): CompareResult
    requires CatalogChecked(c)
  {
    match ResolveIn(prim, c, draft)
    case Err(e) => MatchError(e)
    case Ok(planned) =>
      var resolved := ResolvedRules(prim, c, rules);
      var exact := WithSignature(prim, resolved, ExactSignatureOf(prim, planned.normalized));
      if exact != [] then ExactMatch(exact[0].rule.id)
      else match FirstCover(resolved, planned)
        case Some(found) => CoveredMatch(found.0.rule.id, found.1)
        case None => NewRule
  }

  // ----- the comparer object

  ghost predicate Indexes(prim: Primitives, index: map<string, seq<ResolvedRule>>, resolved: seq<ResolvedRule>) {
    forall s :: WithSignature(prim, resolved, s) == if s in index then index[s] else []
  }

  class RulesComparer {
    const resolver: RuleValuesResolver
    ghost const catalog: Catalog
    ghost const rules: seq<SdwanRule>
    var resolvedRules: seq<ResolvedRule>
    var index: map<string, seq<ResolvedRule>>
    var excludedRules: seq<Excluded>

    ghost predicate Ready()
      reads this, resolver, resolver.groups
    {
      CatalogChecked(catalog) && resolver.CurrentLookup() == LookupOf(catalog)
    }

    /** The three collections describe exactly the rules in `done`. */
    ghost predicate Prepared(done: seq<SdwanRule>)
      reads this, resolver, resolver.groups
    {
      && Ready()
      && resolvedRules == ResolvedRules(resolver.prim, catalog, done)
      && excludedRules == ExcludedRules(resolver.prim, catalog, done)
      && Indexes(resolver.prim, index, resolvedRules)
    }

    ghost predicate Valid()
      reads this, resolver, resolver.groups
    {
      Prepared(rules)
    }

    constructor (prim: Primitives, c: Catalog, rules: seq<SdwanRule>)
      requires CatalogChecked(c)
      ensures Valid() && catalog == c && this.rules == rules && resolver.prim == prim
    {
      catalog := c;
      this.rules := rules;
      resolver := new RuleValuesResolver(prim, c);
      resolvedRules, index, excludedRules := [], map[], [];
      new;
      NothingIndexed(prim);
      for i := 0 to |rules|
        invariant Prepared(rules[..i])
      {
        assert rules[..i + 1] == rules[..i] + [rules[i]];
        AddRule(rules[i], rules[..i]);
      }
      assert rules[..|rules|] == rules;
    }

    /** One more existing rule: excluded when it does not resolve, else listed and indexed. */
    method AddRule(rule: SdwanRule, ghost before: seq<SdwanRule>)
      requires Prepared(before)
      modifies this
      ensures Prepared(before + [rule])
    {
      hide ResolvedRules, ExcludedRules, Indexes, ResolveRule, LookupOf, CatalogChecked, LookupChecked, SignatureOfRule;
      OneMoreRule(resolver.prim, catalog, before, rule);
      LookupOfChecked(catalog);
      var resolved := resolver.Resolve(rule.body);
      if resolved.Err? {
        excludedRules := excludedRules + [Excluded(rule.id, resolved.error)];
        return;
      }
      var entry := ResolvedRule(rule, resolved.value);
      var signature := SignatureOfRule(resolver.prim, entry);
      IndexesNext(resolver.prim, index, resolvedRules, entry);
      resolvedRules := resolvedRules + [entry];
      index := index[signature := (if signature in index then index[signature] else []) + [entry]];
    }

    /** Exact candidates come from the index, then the resolved rules are scanned for a cover. */
    method CompareRule(draft: RuleBody) returns (r: CompareResult)
      requires Valid()
      ensures r == Compare(resolver.prim, catalog, rules, draft)
    {
      LookupOfChecked(catalog);
      var planned := resolver.Resolve(draft);
      if planned.Err? {
        return MatchError(planned.error);
      }
      var signature := ExactSignatureOf(resolver.prim, planned.value.normalized);
      var candidates := if signature in index then index[signature] else [];
      if candidates != [] {
        return ExactMatch(candidates[0].rule.id);
      }
      ghost var all := FirstCover(resolvedRules, planned.value);
      assert resolvedRules[0..] == resolvedRules;
      for i := 0 to |resolvedRules|
        invariant all == FirstCover(resolvedRules[i..], planned.value)
      {
        var coverage := AnalyzeRuleCoverage(resolvedRules[i].values, planned.value);
        if coverage.isCovered {
          return CoveredMatch(resolvedRules[i].rule.id, coverage.details);
        }
        assert resolvedRules[i..][1..] == resolvedRules[i + 1..];
      }
      return NewRule;
    }
  }

  lemma IndexesNext(
    prim: Primitives, index: map<string, seq<ResolvedRule>>, resolved: seq<ResolvedRule>, entry: ResolvedRule)
    requires Indexes(prim, index, resolved)
    ensures var s := SignatureOfRule(prim, entry);
      Indexes(prim, index[s := (if s in index then index[s] else []) + [entry]], resolved + [entry])
  {
    assert (resolved + [entry])[..|resolved|] == resolved;
    hide SignatureOfRule;
  }

  lemma OneMoreRule(prim: Primitives, c: Catalog, before: seq<SdwanRule>, rule: SdwanRule)
    requires CatalogChecked(c)
    ensures var resolved := ResolveIn(prim, c, rule.body);
      && ResolvedRules(prim, c, before + [rule]) ==
        (if resolved.Ok? then ResolvedRules(prim, c, before) + [ResolvedRule(rule, resolved.value)]
          else ResolvedRules(prim, c, before))
      && ExcludedRules(prim, c, before + [rule]) ==
        (if resolved.Err? then ExcludedRules(prim, c, before) + [Excluded(rule.id, resolved.error)]
          else ExcludedRules(prim, c, before))
  {
    hide ResolveIn;
    assert (before + [rule])[..|before|] == before;
  }

  lemma NothingIndexed(prim: Primitives)
    ensures Indexes(prim, map[], [])
  {
  }

  // ----- what the verdicts say

  /** A catalog rule that resolves to the same normalised values as the draft. */
  ghost predicate SameAs(prim: Primitives, c: Catalog, rule: SdwanRule, n: NormalizedValues)
    requires CatalogChecked(c)
  {
    ResolveIn(prim, c, rule.body).Ok? && ResolveIn(prim, c, rule.body).value.normalized == n
  }

  /** A catalog rule that resolves and covers the draft value by value. */
  ghost predicate CoversRule(prim: Primitives, c: Catalog, rule: SdwanRule, n: NormalizedValues)
    requires CatalogChecked(c)
  {
    ResolveIn(prim, c, rule.body).Ok? && RuleCovered(ResolveIn(prim, c, rule.body).value.normalized, n)
  }

  ghost predicate FirstSame(prim: Primitives, c: Catalog, rules: seq<SdwanRule>, n: NormalizedValues, k: nat)
    requires CatalogChecked(c)
  {
    k < |rules| && SameAs(prim, c, rules[k], n) && forall j :: 0 <= j < k ==> !SameAs(prim, c, rules[j], n)
  }

  ghost predicate FirstCovers(prim: Primitives, c: Catalog, rules: seq<SdwanRule>, n: NormalizedValues, k: nat)
    requires CatalogChecked(c)
  {
    k < |rules| && CoversRule(prim, c, rules[k], n) && forall j :: 0 <= j < k ==> !CoversRule(prim, c, rules[j], n)
  }

  lemma {:induction false} SignedRules(
    prim: Primitives, c: Catalog, rules: seq<SdwanRule>, n: NormalizedValues) returns (k: nat)
    requires Faithful(prim) && CatalogChecked(c)
    ensures var exact := WithSignature(prim, ResolvedRules(prim, c, rules), ExactSignatureOf(prim, n));
      if exact == [] then k == |rules| && forall j :: 0 <= j < |rules| ==> !SameAs(prim, c, rules[j], n)
      else FirstSame(prim, c, rules, n, k) && exact[0].rule == rules[k]
  {
    hide ExactSignatureOf, ResolveIn, Faithful;
    if rules == [] {
      k := 0;
    } else {
      var init, last := rules[..|rules| - 1], rules[|rules| - 1];
      k := SignedRules(prim, c, init, n);
      assert forall j :: 0 <= j < |init| ==> init[j] == rules[j];
      if ResolveIn(prim, c, last.body).Ok? {
        var entry := ResolvedRule(last, ResolveIn(prim, c, last.body).value);
        var resolved := ResolvedRules(prim, c, init);
        assert (resolved + [entry])[..|resolved|] == resolved;
        ExactSignatureIdentifies(prim, entry.values.normalized, n);
      }
      if k == |init| && !SameAs(prim, c, last, n) { k := |rules|; }
    }
  }

  lemma {:induction false} CoverFound(resolved: seq<ResolvedRule>, planned: ResolvedValues, entry: ResolvedRule)
    ensures FirstCover(resolved + [entry], planned) ==
      if FirstCover(resolved, planned).Some? then FirstCover(resolved, planned)
      else if AnalyzeCoverage(entry.values, planned).isCovered
        then Some((entry, AnalyzeCoverage(entry.values, planned).details))
      else None
  {
    hide AnalyzeCoverage;
    if resolved == [] {
      assert [entry][1..] == [];
    } else {
      assert (resolved + [entry])[1..] == resolved[1..] + [entry];
      CoverFound(resolved[1..], planned, entry);
    }
  }

  lemma {:induction false} CoveringRules(
    prim: Primitives, c: Catalog, rules: seq<SdwanRule>, planned: ResolvedValues) returns (k: nat)
    requires CatalogChecked(c) && WellResolved(planned)
    ensures var found := FirstCover(ResolvedRules(prim, c, rules), planned);
      if found.None? then k == |rules| && forall j :: 0 <= j < |rules| ==>
        !CoversRule(prim, c, rules[j], planned.normalized)
      else (FirstCovers(prim, c, rules, planned.normalized, k) && found.value.0.rule == rules[k]
            && found.value.1 == AnalyzeCoverage(ResolveIn(prim, c, rules[k].body).value, planned).details)
  {
    hide ResolveIn, AnalyzeCoverage, WellResolved, RuleCovered;
    if rules == [] {
      k := 0;
    } else {
      var init, last := rules[..|rules| - 1], rules[|rules| - 1];
      k := CoveringRules(prim, c, init, planned);
      assert forall j :: 0 <= j < |init| ==> init[j] == rules[j];
      if ResolveIn(prim, c, last.body).Ok? {
        var entry := ResolvedRule(last, ResolveIn(prim, c, last.body).value);
        CoverFound(ResolvedRules(prim, c, init), planned, entry);
        ResolveWell(prim, c, last.body);
        CoverageDecided(entry.values, planned);
      }
      if k == |init| && !CoversRule(prim, c, last, planned.normalized) { k := |rules|; }
    }
  }
}
