/** What each verdict means for the traffic of the two rules, and how verdicts change as rules are added. */
module Verdicts {
  import opened CatalogModels
  import opened Rules
  import opened RuleMeaning
  import opened Coverage
  import opened ExactSignature
  import opened Comparer

  /** The verdict a plain scan by normalised values would give, with the first rule in catalog order. */
  ghost predicate DecidedBy(prim: Primitives, c: Catalog, rules: seq<SdwanRule>, draft: RuleBody, r: CompareResult)
    requires CatalogChecked(c)
  {
    match ResolveIn(prim, c, draft)
    case Err(e) => r == MatchError(e)
    case Ok(planned) =>
      var n := planned.normalized;
      match r
      case MatchError(_) => false
      case ExactMatch(id) => exists k: nat :: FirstSame(prim, c, rules, n, k) && id == rules[k].id
      case CoveredMatch(id, details) =>
        (forall j :: 0 <= j < |rules| ==> !SameAs(prim, c, rules[j], n)) &&
        exists k: nat :: FirstCovers(prim, c, rules, n, k) && id == rules[k].id
                    && details == AnalyzeCoverage(ResolveIn(prim, c, rules[k].body).value, planned).details
      case NewRule =>
        (forall j :: 0 <= j < |rules| ==> !SameAs(prim, c, rules[j], n)) &&
        (forall j :: 0 <= j < |rules| ==> !CoversRule(prim, c, rules[j], n))
  }

  /** The indexed comparison agrees with the plain scan, and only that verdict does. */
  lemma IndexRefinesScan(prim: Primitives, c: Catalog, rules: seq<SdwanRule>, draft: RuleBody)
    requires Faithful(prim) && CatalogChecked(c)
    ensures DecidedBy(prim, c, rules, draft, Compare(prim, c, rules, draft))
  {
    hide ResolveIn, AnalyzeCoverage, ExactSignatureOf, Faithful, RuleCovered;
    if ResolveIn(prim, c, draft).Ok? {
      var planned := ResolveIn(prim, c, draft).value;
      ResolveWell(prim, c, draft);
      hide WellResolved;
      var k := SignedRules(prim, c, rules, planned.normalized);
      var l := CoveringRules(prim, c, rules, planned);
    }
  }

  lemma ScanIsUnique(
    prim: Primitives, c: Catalog, rules: seq<SdwanRule>, draft: RuleBody, r: CompareResult, s: CompareResult)
    requires CatalogChecked(c) && DecidedBy(prim, c, rules, draft, r) && DecidedBy(prim, c, rules, draft, s)
    ensures r == s
  {
    hide ResolveIn, AnalyzeCoverage, RuleCovered;
    if r.ExactMatch? && s.ExactMatch? {
      var n := ResolveIn(prim, c, draft).value.normalized;
      var k: nat :| FirstSame(prim, c, rules, n, k) && r.id == rules[k].id;
      var l: nat :| FirstSame(prim, c, rules, n, l) && s.id == rules[l].id;
      assert k == l;
    }
    if r.CoveredMatch? && s.CoveredMatch? {
      var planned := ResolveIn(prim, c, draft).value;
      var k: nat :| FirstCovers(prim, c, rules, planned.normalized, k) && r.coveringId == rules[k].id
        && r.details == AnalyzeCoverage(ResolveIn(prim, c, rules[k].body).value, planned).details;
      var l: nat :| FirstCovers(prim, c, rules, planned.normalized, l) && s.coveringId == rules[l].id
        && s.details == AnalyzeCoverage(ResolveIn(prim, c, rules[l].body).value, planned).details;
      assert k == l;
    }
  }

  // ----- every catalog rule is either compared or excluded

  function EachId<T>(id: T -> int, s: seq<T>): (r: seq<int>)
    ensures |r| == |s|
  {
    seq(|s|, i requires 0 <= i < |s| => id(s[i]))
  }

  lemma IdsSnoc<T>(id: T -> int, s: seq<T>, x: T)
    ensures multiset(EachId(id, s + [x])) == multiset(EachId(id, s)) + multiset{id(x)}
  {
    assert EachId(id, s + [x]) == EachId(id, s) + [id(x)];
  }

  ghost predicate ComparedAs(prim: Primitives, c: Catalog, rules: seq<SdwanRule>, e: ResolvedRule)
    requires CatalogChecked(c)
  {
    e.rule in rules && ResolveIn(prim, c, e.rule.body) == Ok(e.values)
  }

  ghost predicate ExcludedAs(prim: Primitives, c: Catalog, rules: seq<SdwanRule>, x: Excluded)
    requires CatalogChecked(c)
  {
    exists r :: r in rules && r.id == x.id && ResolveIn(prim, c, r.body) == Err(x.reason)
  }

  lemma PartitionSnoc(prim: Primitives, c: Catalog, init: seq<SdwanRule>, last: SdwanRule)
    requires CatalogChecked(c)
    ensures forall e :: ComparedAs(prim, c, init + [last], e) <==>
      ComparedAs(prim, c, init, e) || (e.rule == last && ResolveIn(prim, c, last.body) == Ok(e.values))
    ensures forall x :: ExcludedAs(prim, c, init + [last], x) <==>
      ExcludedAs(prim, c, init, x) || (x.id == last.id && ResolveIn(prim, c, last.body) == Err(x.reason))
  {
    hide ResolveIn;
    assert forall r :: r in init + [last] <==> r in init || r == last;
  }

  /** The compared rules are those that resolve, the excluded ones those that do not, and no rule is lost or doubled. */
  lemma {:induction false} RulesPartitioned(prim: Primitives, c: Catalog, rules: seq<SdwanRule>)
    requires CatalogChecked(c)
    ensures forall e :: e in ResolvedRules(prim, c, rules) <==> ComparedAs(prim, c, rules, e)
    ensures forall x :: x in ExcludedRules(prim, c, rules) <==> ExcludedAs(prim, c, rules, x)
    ensures multiset(EachId((r: SdwanRule) => r.id, rules))
      == multiset(EachId((e: ResolvedRule) => e.rule.id, ResolvedRules(prim, c, rules)))
       + multiset(EachId((x: Excluded) => x.id, ExcludedRules(prim, c, rules)))
  {
    hide ResolveIn, ComparedAs, ExcludedAs;
    if rules == [] {
      NothingCompared(prim, c);
    } else {
      var init, last := rules[..|rules| - 1], rules[|rules| - 1];
      assert rules == init + [last];
      RulesPartitioned(prim, c, init);
      PartitionSnoc(prim, c, init, last);
      IdsSnoc((r: SdwanRule) => r.id, init, last);
      match ResolveIn(prim, c, last.body)
      case Ok(values) =>
        IdsSnoc((e: ResolvedRule) => e.rule.id, ResolvedRules(prim, c, init), ResolvedRule(last, values));
      case Err(e) => IdsSnoc((x: Excluded) => x.id, ExcludedRules(prim, c, init), Excluded(last.id, e));
    }
  }

  predicate Ascending(at: seq<nat>) { forall i, j :: 0 <= i < j < |at| ==> at[i] < at[j] }

  /** The compared rules stand in catalog order: their places are those of the rules that resolve. */
  ghost predicate ComparedAt(
    prim: Primitives, c: Catalog, rules: seq<SdwanRule>, entries: seq<ResolvedRule>, at: seq<nat>)
    requires CatalogChecked(c)
  {
    && Ascending(at) && |at| == |entries|
    && (forall k :: 0 <= k < |at| ==> at[k] < |rules| && entries[k].rule == rules[at[k]])
    && forall i: nat :: i in at <==> i < |rules| && ResolveIn(prim, c, rules[i].body).Ok?
  }

  /** The excluded rules stand in catalog order: their places are those of the rules that do not resolve. */
  ghost predicate ExcludedAt(
    prim: Primitives, c: Catalog, rules: seq<SdwanRule>, entries: seq<Excluded>, at: seq<nat>)
    requires CatalogChecked(c)
  {
    && Ascending(at) && |at| == |entries|
    && (forall k :: 0 <= k < |at| ==> at[k] < |rules| && entries[k].id == rules[at[k]].id)
    && forall i: nat :: i in at <==> i < |rules| && ResolveIn(prim, c, rules[i].body).Err?
  }

  lemma PlacesNext(
    prim: Primitives, c: Catalog, init: seq<SdwanRule>, last: SdwanRule, entries: seq<ResolvedRule>, at: seq<nat>,
    others: seq<Excluded>, out: seq<nat>)
    requires CatalogChecked(c) && ComparedAt(prim, c, init, entries, at) && ExcludedAt(prim, c, init, others, out)
    ensures match ResolveIn(prim, c, last.body)
      case Ok(values) =>
        && ComparedAt(prim, c, init + [last], entries + [ResolvedRule(last, values)], at + [|init|])
        && ExcludedAt(prim, c, init + [last], others, out)
      case Err(e) =>
        && ComparedAt(prim, c, init + [last], entries, at)
        && ExcludedAt(prim, c, init + [last], others + [Excluded(last.id, e)], out + [|init|])
  {
    hide ResolveIn;
    var rules := init + [last];
    assert forall i :: 0 <= i < |init| ==> rules[i] == init[i];
    assert |init| !in at && |init| !in out;
  }

  /** Compared and excluded rules both stand in catalog order, and each rule is in exactly one of the two lists. */
  lemma {:induction false} PartitionInOrder(prim: Primitives, c: Catalog, rules: seq<SdwanRule>)
      returns (compared: seq<nat>, excluded: seq<nat>)
    requires CatalogChecked(c)
    ensures ComparedAt(prim, c, rules, ResolvedRules(prim, c, rules), compared)
    ensures ExcludedAt(prim, c, rules, ExcludedRules(prim, c, rules), excluded)
  {
    compared, excluded := [], [];
    if rules != [] {
      hide ResolveIn, ComparedAt, ExcludedAt, ResolvedRules, ExcludedRules;
      var init, last := rules[..|rules| - 1], rules[|rules| - 1];
      assert rules == init + [last];
      compared, excluded := PartitionInOrder(prim, c, init);
      OneMoreRule(prim, c, init, last);
      PlacesNext(prim, c, init, last, ResolvedRules(prim, c, init), compared, ExcludedRules(prim, c, init), excluded);
      if ResolveIn(prim, c, last.body).Ok? {
        compared := compared + [|init|];
      } else {
        excluded := excluded + [|init|];
      }
    }
  }

  lemma NothingCompared(prim: Primitives, c: Catalog)
    requires CatalogChecked(c)
    ensures forall e :: !ComparedAs(prim, c, [], e)
    ensures forall x :: !ExcludedAs(prim, c, [], x)
  {
  }

  // ----- soundness of the verdicts over the traffic of the rules

  lemma MatchedRule(prim: Primitives, c: Catalog, rule: RuleBody, draft: RuleBody, emptyIsAny: bool, t: Traffic)
    requires CatalogChecked(c) && ResolveIn(prim, c, rule).Ok? && ResolveIn(prim, c, draft).Ok?
    requires RuleCovered(ResolveIn(prim, c, rule).value.normalized, ResolveIn(prim, c, draft).value.normalized)
    requires RuleMatches(prim, c, emptyIsAny, draft, t)
    ensures RuleMatches(prim, c, emptyIsAny, rule, t)
  {
    hide RuleMatches, ValuesMatch, RuleCovered, ResolveIn;
    ResolveKeepsMeaning(prim, c, emptyIsAny, rule, t);
    ResolveKeepsMeaning(prim, c, emptyIsAny, draft, t);
    CoveredMatchesLess(
      emptyIsAny, ResolveIn(prim, c, rule).value.normalized, ResolveIn(prim, c, draft).value.normalized, t);
  }

  /** COVERED: the draft's traffic is contained in that of the matched rule, with the same action. */
  lemma CoveredIsContained(prim: Primitives, c: Catalog, rules: seq<SdwanRule>, draft: RuleBody) returns (k: nat)
    requires CatalogChecked(c) && Compare(prim, c, rules, draft).CoveredMatch?
    ensures k < |rules| && rules[k].id == Compare(prim, c, rules, draft).coveringId
    ensures NormalizeAction(rules[k].body.action) == NormalizeAction(draft.action)
    ensures forall emptyIsAny, t :: RuleMatches(prim, c, emptyIsAny, draft, t) ==>
      RuleMatches(prim, c, emptyIsAny, rules[k].body, t)
  {
    hide ResolveIn, AnalyzeCoverage, ExactSignatureOf, RuleMatches;
    var planned := ResolveIn(prim, c, draft).value;
    ResolveWell(prim, c, draft);
    k := CoveringRules(prim, c, rules, planned);
    ResolveWell(prim, c, rules[k].body);
    forall emptyIsAny, t | RuleMatches(prim, c, emptyIsAny, draft, t)
      ensures RuleMatches(prim, c, emptyIsAny, rules[k].body, t)
    {
      MatchedRule(prim, c, rules[k].body, draft, emptyIsAny, t);
    }
  }

  /** EXACT: both rules match the same traffic, with the same action. */
  lemma ExactIsEqual(prim: Primitives, c: Catalog, rules: seq<SdwanRule>, draft: RuleBody) returns (k: nat)
    requires Faithful(prim) && CatalogChecked(c) && Compare(prim, c, rules, draft).ExactMatch?
    ensures k < |rules| && rules[k].id == Compare(prim, c, rules, draft).id
    ensures NormalizeAction(rules[k].body.action) == NormalizeAction(draft.action)
    ensures forall emptyIsAny, t :: RuleMatches(prim, c, emptyIsAny, draft, t) <==>
      RuleMatches(prim, c, emptyIsAny, rules[k].body, t)
  {
    hide ResolveIn, ExactSignatureOf, RuleMatches, Faithful, RuleCovered;
    var planned := ResolveIn(prim, c, draft).value;
    ResolveWell(prim, c, draft);
    k := SignedRules(prim, c, rules, planned.normalized);
    ResolveWell(prim, c, rules[k].body);
    CoverageIsPreorder(planned.normalized, planned.normalized, planned.normalized);
    forall emptyIsAny, t
      ensures RuleMatches(prim, c, emptyIsAny, draft, t) <==> RuleMatches(prim, c, emptyIsAny, rules[k].body, t)
    {
      if RuleMatches(prim, c, emptyIsAny, draft, t) { MatchedRule(prim, c, rules[k].body, draft, emptyIsAny, t); }
      if RuleMatches(prim, c, emptyIsAny, rules[k].body, t) {
        MatchedRule(prim, c, draft, rules[k].body, emptyIsAny, t);
      }
    }
  }

  // ----- adding rules

  ghost predicate HasSignature(prim: Primitives, c: Catalog, r: SdwanRule, signature: string)
    requires CatalogChecked(c)
  {
    ResolveIn(prim, c, r.body).Ok? && ExactSignatureOf(prim, ResolveIn(prim, c, r.body).value.normalized) == signature
  }

  ghost predicate IsCoverFor(prim: Primitives, c: Catalog, r: SdwanRule, planned: ResolvedValues)
    requires CatalogChecked(c)
  {
    ResolveIn(prim, c, r.body).Ok? && AnalyzeCoverage(ResolveIn(prim, c, r.body).value, planned).isCovered
  }

  ghost predicate SomeSigned(prim: Primitives, c: Catalog, rules: seq<SdwanRule>, signature: string)
    requires CatalogChecked(c)
  {
    exists r :: r in rules && HasSignature(prim, c, r, signature)
  }

  ghost predicate SomeCovers(prim: Primitives, c: Catalog, rules: seq<SdwanRule>, planned: ResolvedValues)
    requires CatalogChecked(c)
  {
    exists r :: r in rules && IsCoverFor(prim, c, r, planned)
  }

  lemma SomeSnoc(
    prim: Primitives, c: Catalog, init: seq<SdwanRule>, last: SdwanRule, signature: string, planned: ResolvedValues)
    requires CatalogChecked(c)
    ensures SomeSigned(prim, c, init + [last], signature) <==>
      SomeSigned(prim, c, init, signature) || HasSignature(prim, c, last, signature)
    ensures SomeCovers(prim, c, init + [last], planned) <==>
      SomeCovers(prim, c, init, planned) || IsCoverFor(prim, c, last, planned)
  {
    hide HasSignature, IsCoverFor;
    assert forall r :: r in init + [last] <==> r in init || r == last;
  }

  lemma {:induction false} Candidates(
    prim: Primitives, c: Catalog, rules: seq<SdwanRule>, signature: string, planned: ResolvedValues)
    requires CatalogChecked(c)
    ensures WithSignature(prim, ResolvedRules(prim, c, rules), signature) != [] <==>
      SomeSigned(prim, c, rules, signature)
    ensures FirstCover(ResolvedRules(prim, c, rules), planned).Some? <==> SomeCovers(prim, c, rules, planned)
  {
    hide ResolveIn, ExactSignatureOf, AnalyzeCoverage, SomeSigned, SomeCovers;
    if rules != [] {
      var init, last := rules[..|rules| - 1], rules[|rules| - 1];
      Candidates(prim, c, init, signature, planned);
      assert rules == init + [last];
      SomeSnoc(prim, c, init, last, signature, planned);
      var resolved := ResolvedRules(prim, c, init);
      if ResolveIn(prim, c, last.body).Ok? {
        var entry := ResolvedRule(last, ResolveIn(prim, c, last.body).value);
        assert (resolved + [entry])[..|resolved|] == resolved;
        CoverFound(resolved, planned, entry);
      }
    } else {
      NoCandidates(prim, c, signature, planned);
    }
  }

  lemma NoCandidates(prim: Primitives, c: Catalog, signature: string, planned: ResolvedValues)
    requires CatalogChecked(c)
    ensures !SomeSigned(prim, c, [], signature) && !SomeCovers(prim, c, [], planned)
  {
  }

  /** Adding rules anywhere never loses an exact match, nor a cover, and leaves errors alone. */
  lemma MoreRulesKeepVerdict(prim: Primitives, c: Catalog, rules: seq<SdwanRule>, more: seq<SdwanRule>, draft: RuleBody)
    requires CatalogChecked(c) && forall r | r in rules :: r in more
    ensures Compare(prim, c, rules, draft).MatchError? <==> Compare(prim, c, more, draft).MatchError?
    ensures Compare(prim, c, rules, draft).MatchError? ==>
      Compare(prim, c, more, draft) == Compare(prim, c, rules, draft)
    ensures Compare(prim, c, rules, draft).ExactMatch? ==> Compare(prim, c, more, draft).ExactMatch?
    ensures Compare(prim, c, rules, draft).CoveredMatch? ==> !Compare(prim, c, more, draft).NewRule?
  {
    hide ResolveIn, ExactSignatureOf, AnalyzeCoverage, HasSignature, IsCoverFor, ResolvedRules;
    if ResolveIn(prim, c, draft).Ok? {
      var planned := ResolveIn(prim, c, draft).value;
      var signature := ExactSignatureOf(prim, planned.normalized);
      Candidates(prim, c, rules, signature, planned);
      Candidates(prim, c, more, signature, planned);
    }
  }

  /** A rule with the draft's own body makes the draft an exact match, if the draft resolves at all. */
  lemma OwnBodyIsExact(prim: Primitives, c: Catalog, rules: seq<SdwanRule>, r: SdwanRule)
    requires CatalogChecked(c) && r in rules
    ensures Compare(prim, c, rules, r.body).ExactMatch? <==> ResolveIn(prim, c, r.body).Ok?
  {
    if ResolveIn(prim, c, r.body).Ok? {
      var planned := ResolveIn(prim, c, r.body).value;
      var signature := ExactSignatureOf(prim, planned.normalized);
      Candidates(prim, c, rules, signature, planned);
      assert HasSignature(prim, c, r, signature);
    }
  }

  lemma {:induction false} AppendedSignature(
    prim: Primitives, c: Catalog, rules: seq<SdwanRule>, more: seq<SdwanRule>, signature: string)
    requires CatalogChecked(c)
    ensures WithSignature(prim, ResolvedRules(prim, c, rules), signature)
      <= WithSignature(prim, ResolvedRules(prim, c, rules + more), signature)
  {
    hide ResolveIn, ExactSignatureOf;
    if more == [] {
      assert rules + more == rules;
    } else {
      var init, last := more[..|more| - 1], more[|more| - 1];
      AppendedSignature(prim, c, rules, init, signature);
      assert (rules + more)[..|rules + more| - 1] == rules + init;
      var resolved := ResolvedRules(prim, c, rules + init);
      if ResolveIn(prim, c, last.body).Ok? {
        var entry := ResolvedRule(last, ResolveIn(prim, c, last.body).value);
        assert (resolved + [entry])[..|resolved|] == resolved;
      }
    }
  }

  lemma {:induction false} AppendedCover(
    prim: Primitives, c: Catalog, rules: seq<SdwanRule>, more: seq<SdwanRule>, planned: ResolvedValues)
    requires CatalogChecked(c) && FirstCover(ResolvedRules(prim, c, rules), planned).Some?
    ensures FirstCover(ResolvedRules(prim, c, rules + more), planned) ==
      FirstCover(ResolvedRules(prim, c, rules), planned)
  {
    hide ResolveIn, AnalyzeCoverage;
    if more == [] {
      assert rules + more == rules;
    } else {
      var init, last := more[..|more| - 1], more[|more| - 1];
      AppendedCover(prim, c, rules, init, planned);
      assert (rules + more)[..|rules + more| - 1] == rules + init;
      if ResolveIn(prim, c, last.body).Ok? {
        var entry := ResolvedRule(last, ResolveIn(prim, c, last.body).value);
        CoverFound(ResolvedRules(prim, c, rules + init), planned, entry);
      }
    }
  }

  /** Appending rules keeps an exact match's id, and a cover stays the same unless it becomes exact. */
  lemma AppendKeepsVerdict(prim: Primitives, c: Catalog, rules: seq<SdwanRule>, more: seq<SdwanRule>, draft: RuleBody)
    requires CatalogChecked(c)
    ensures Compare(prim, c, rules, draft).MatchError? || Compare(prim, c, rules, draft).ExactMatch? ==>
      Compare(prim, c, rules + more, draft) == Compare(prim, c, rules, draft)
    ensures Compare(prim, c, rules, draft).CoveredMatch? ==>
      Compare(prim, c, rules + more, draft).ExactMatch? ||
        Compare(prim, c, rules + more, draft) == Compare(prim, c, rules, draft)
  {
    hide ResolveIn, ExactSignatureOf, AnalyzeCoverage, ResolvedRules;
    if ResolveIn(prim, c, draft).Ok? {
      var planned := ResolveIn(prim, c, draft).value;
      AppendedSignature(prim, c, rules, more, ExactSignatureOf(prim, planned.normalized));
      if FirstCover(ResolvedRules(prim, c, rules), planned).Some? {
        AppendedCover(prim, c, rules, more, planned);
      }
    }
  }
}
