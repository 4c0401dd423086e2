/** Coverage of a planned rule by an existing one, and the evidence reported for it. */
module Coverage {
  import opened CatalogModels
  import opened RuleValues
  import opened Rules
  import opened RuleMeaning

  datatype CoverageField = SrcAddrObjects | DstAddrObjects | ServicesField

  /** One entry of the evidence dictionary: a covering value and the values it strictly covers. */
  datatype CoverGroup = CoverGroup(covering: Evidence, covered: seq<Evidence>)

  datatype CoverageDetail = CoverageDetail(field: CoverageField, covering: Evidence, covered: seq<Evidence>)

  datatype Analysis = Analysis(isCovered: bool, details: seq<CoverageDetail>)

  function FirstCovering(existing: seq<Resolved>, v: Value): (r: Option<Resolved>)
    ensures r.None? <==> forall e | e in existing :: !Covers(e.value, v)
    ensures r.Some? ==> r.value in existing && Covers(r.value.value, v)
  {
    if existing == [] then None
    else if Covers(existing[0].value, v) then Some(existing[0])
    else FirstCovering(existing[1..], v)
  }

  /** `setdefault(key, []).append(item)` on an ordered dictionary. */
  function AddTo(groups: seq<CoverGroup>, key: Evidence, item: Evidence): seq<CoverGroup> {
    if groups == [] then [CoverGroup(key, [item])]
    else if groups[0].covering == key then [CoverGroup(key, groups[0].covered + [item])] + groups[1..]
    else [groups[0]] + AddTo(groups[1..], key, item)
  }

  /** The evidence after the planned values, or nothing when some value is not covered. */
  function Grouped(existing: seq<Resolved>, planned: seq<Resolved>): Option<seq<CoverGroup>> {
    if planned == [] then Some([])
    else
      var last := planned[|planned| - 1];
      match Grouped(existing, planned[..|planned| - 1])
      case None => None
      case Some(groups) =>
        match FirstCovering(existing, last.value)
        case None => None
        case Some(c) =>
          if SignatureOf(c.value) == SignatureOf(last.value) then Some(groups)
          else Some(AddTo(groups, c.evidence, last.evidence))
  }

  function AnalyzeValues(existing: seq<Resolved>, planned: seq<Resolved>): Option<seq<CoverGroup>> {
    if planned == [] then (if existing == [] then Some([]) else None)
    else if existing == [] then None
    else Grouped(existing, planned)
  }

  lemma {:induction false} GroupedPrefix(existing: seq<Resolved>, planned: seq<Resolved>, k: nat)
    requires k <= |planned| && Grouped(existing, planned[..k]).None?
    ensures Grouped(existing, planned).None?
  {
    if k < |planned| {
      var init := planned[..|planned| - 1];
      assert init[..k] == planned[..k];
      GroupedPrefix(existing, init, k);
    } else {
      assert planned[..k] == planned;
    }
  }

  /** The loop over planned values with its early exit. */
  method AnalyzeValuesCoverage(existing: seq<Resolved>, planned: seq<Resolved>) returns (r: Option<seq<CoverGroup>>)
    ensures r == AnalyzeValues(existing, planned)
  {
    if planned == [] {
      return if existing == [] then Some([]) else None;
    }
    if existing == [] {
      return None;
    }
    var groups: seq<CoverGroup> := [];
    for i := 0 to |planned|
      invariant Grouped(existing, planned[..i]) == Some(groups)
    {
      var value := planned[i];
      assert planned[..i + 1][..i] == planned[..i];
      var covering := FirstCovering(existing, value.value);
      if covering.None? {
        GroupedPrefix(existing, planned, i + 1);
        return None;
      }
      if SignatureOf(covering.value.value) != SignatureOf(value.value) {
        groups := AddTo(groups, covering.value.evidence, value.evidence);
      }
    }
    assert planned[..|planned|] == planned;
    return Some(groups);
  }

  function StrSetCovers(existing: set<string>, target: set<string>): bool {
    if target == {} then existing == {}
    else if existing == {} then false
    else existing >= target
  }

  function Details(field: CoverageField, groups: seq<CoverGroup>): seq<CoverageDetail> {
    seq(|groups|, i requires 0 <= i < |groups| => CoverageDetail(field, groups[i].covering, groups[i].covered))
  }

  function AnalyzeCoverage(existing: ResolvedValues, planned: ResolvedValues): Analysis {
    if existing.normalized.action != planned.normalized.action
      || !StrSetCovers(existing.normalized.srcZones, planned.normalized.srcZones)
      || !StrSetCovers(existing.normalized.dstZones, planned.normalized.dstZones)
    then Analysis(false, [])
    else
      match AnalyzeValues(existing.srcAddrs, planned.srcAddrs)
      case None => Analysis(false, [])
      case Some(src) =>
        match AnalyzeValues(existing.dstAddrs, planned.dstAddrs)
        case None => Analysis(false, [])
        case Some(dst) =>
          match AnalyzeValues(existing.services, planned.services)
          case None => Analysis(false, [])
          case Some(services) =>
            Analysis(true, Details(SrcAddrObjects, src) + Details(DstAddrObjects, dst) +
              Details(ServicesField, services))
  }

  method AnalyzeRuleCoverage(existing: ResolvedValues, planned: ResolvedValues) returns (r: Analysis)
    ensures r == AnalyzeCoverage(existing, planned)
  {
    if existing.normalized.action != planned.normalized.action
      || !StrSetCovers(existing.normalized.srcZones, planned.normalized.srcZones)
      || !StrSetCovers(existing.normalized.dstZones, planned.normalized.dstZones)
    {
      return Analysis(false, []);
    }
    var src := AnalyzeValuesCoverage(existing.srcAddrs, planned.srcAddrs);
    if src.None? {
      return Analysis(false, []);
    }
    var dst := AnalyzeValuesCoverage(existing.dstAddrs, planned.dstAddrs);
    if dst.None? {
      return Analysis(false, []);
    }
    var services := AnalyzeValuesCoverage(existing.services, planned.services);
    if services.None? {
      return Analysis(false, []);
    }
    return Analysis(true, Details(SrcAddrObjects, src.value) + Details(DstAddrObjects, dst.value)
                          + Details(ServicesField, services.value));
  }

  // ----- when a rule is covered, in terms of what values match

  ghost predicate Includes(w: Value, v: Value) { forall p :: Matches(v, p) ==> Matches(w, p) }

  /** Both sides empty together, and each planned value lies within one existing value. */
  ghost predicate CoveredBySingles(existing: set<Value>, planned: set<Value>) {
    (planned == {} <==> existing == {}) && forall v | v in planned :: exists w :: w in existing && Includes(w, v)
  }

  ghost predicate RuleCovered(existing: NormalizedValues, planned: NormalizedValues) {
    && existing.action == planned.action
    && (planned.srcZones == {} <==> existing.srcZones == {}) && planned.srcZones <= existing.srcZones
    && (planned.dstZones == {} <==> existing.dstZones == {}) && planned.dstZones <= existing.dstZones
    && CoveredBySingles(existing.srcAddrs, planned.srcAddrs)
    && CoveredBySingles(existing.dstAddrs, planned.dstAddrs)
    && CoveredBySingles(existing.services, planned.services)
  }

  ghost predicate AllCovered(existing: seq<Resolved>, planned: seq<Resolved>) {
    forall p | p in planned :: FirstCovering(existing, p.value).Some?
  }

  lemma AllCoveredSnoc(existing: seq<Resolved>, planned: seq<Resolved>)
    requires planned != []
    ensures AllCovered(existing, planned) <==>
      AllCovered(existing, planned[..|planned| - 1]) && FirstCovering(existing, planned[|planned| - 1].value).Some?
  {
    hide FirstCovering;
    assert planned == planned[..|planned| - 1] + [planned[|planned| - 1]];
  }

  lemma {:induction false} GroupedCovered(existing: seq<Resolved>, planned: seq<Resolved>)
    ensures Grouped(existing, planned).Some? <==> AllCovered(existing, planned)
  {
    if planned != [] {
      hide FirstCovering, AllCovered, SignatureOf, AddTo;
      GroupedCovered(existing, planned[..|planned| - 1]);
      AllCoveredSnoc(existing, planned);
    }
  }

  lemma CoveredValue(existing: seq<Resolved>, v: Value)
    requires AllValid(existing) && Valid(v)
    ensures FirstCovering(existing, v).Some? <==> exists w :: w in ValueSet(existing) && Includes(w, v)
  {
    forall e | e in existing ensures Covers(e.value, v) <==> Includes(e.value, v) { CoversIsInclusion(e.value, v); }
    if FirstCovering(existing, v).Some? {
      var c := FirstCovering(existing, v).value;
      assert c.value in ValueSet(existing);
    }
  }

  lemma ValuesCovered(existing: seq<Resolved>, planned: seq<Resolved>)
    requires AllValid(existing) && AllValid(planned)
    ensures AnalyzeValues(existing, planned).Some? <==> CoveredBySingles(ValueSet(existing), ValueSet(planned))
  {
    hide Includes;
    var p := NamePoint("");
    SetMatchesAny(existing, p);
    SetMatchesAny(planned, p);
    GroupedCovered(existing, planned);
    forall r | r in planned
      ensures FirstCovering(existing, r.value).Some? <==> exists w :: w in ValueSet(existing) && Includes(w, r.value)
    {
      CoveredValue(existing, r.value);
    }
    if AnalyzeValues(existing, planned).Some? {
      forall v | v in ValueSet(planned) ensures exists w :: w in ValueSet(existing) && Includes(w, v) {
        var r :| r in planned && r.value == v;
        assert FirstCovering(existing, r.value).Some?;
      }
    }
    if CoveredBySingles(ValueSet(existing), ValueSet(planned)) {
      forall r | r in planned ensures FirstCovering(existing, r.value).Some? { assert r.value in ValueSet(planned); }
    }
  }

  /** The verdict depends on the normalised sets alone and needs one covering value per planned value. */
  lemma CoverageDecided(existing: ResolvedValues, planned: ResolvedValues)
    requires WellResolved(existing) && WellResolved(planned)
    ensures AnalyzeCoverage(existing, planned).isCovered <==> RuleCovered(existing.normalized, planned.normalized)
  {
    hide AllValid, CoveredBySingles, AnalyzeValues;
    ValuesCovered(existing.srcAddrs, planned.srcAddrs);
    ValuesCovered(existing.dstAddrs, planned.dstAddrs);
    ValuesCovered(existing.services, planned.services);
  }

  lemma SinglesInclude(existing: set<Value>, planned: set<Value>, p: Point)
    requires CoveredBySingles(existing, planned) && SetMatches(planned, p)
    ensures SetMatches(existing, p)
  {
    var v :| v in planned && Matches(v, p);
    var w :| w in existing && Includes(w, v);
  }

  /** A covered rule matches only traffic the existing rule matches, however empty lists are read. */
  lemma CoveredMatchesLess(emptyIsAny: bool, existing: NormalizedValues, planned: NormalizedValues, t: Traffic)
    requires RuleCovered(existing, planned) && ValuesMatch(emptyIsAny, planned, t)
    ensures ValuesMatch(emptyIsAny, existing, t)
  {
    if SetMatches(planned.srcAddrs, t.src) { SinglesInclude(existing.srcAddrs, planned.srcAddrs, t.src); }
    if SetMatches(planned.dstAddrs, t.dst) { SinglesInclude(existing.dstAddrs, planned.dstAddrs, t.dst); }
    if SetMatches(planned.services, t.service) { SinglesInclude(existing.services, planned.services, t.service); }
    hide CoveredBySingles, SetMatches;
  }

  lemma SinglesTransitive(a: set<Value>, b: set<Value>, c: set<Value>)
    requires CoveredBySingles(a, b) && CoveredBySingles(b, c)
    ensures CoveredBySingles(a, c)
  {
    forall v | v in c ensures exists u :: u in a && Includes(u, v) {
      var w :| w in b && Includes(w, v);
      var u :| u in a && Includes(u, w);
      assert Includes(u, v);
    }
  }

  lemma SinglesReflexive(a: set<Value>)
    ensures CoveredBySingles(a, a)
  {
    forall v | v in a ensures exists w :: w in a && Includes(w, v) { assert Includes(v, v); }
  }

  /** Coverage between rules is reflexive and transitive, empty operand lists included. */
  lemma CoverageIsPreorder(a: NormalizedValues, b: NormalizedValues, c: NormalizedValues)
    ensures RuleCovered(a, a)
    ensures RuleCovered(a, b) && RuleCovered(b, c) ==> RuleCovered(a, c)
  {
    SinglesReflexive(a.srcAddrs);
    SinglesReflexive(a.dstAddrs);
    SinglesReflexive(a.services);
    hide CoveredBySingles;
    if RuleCovered(a, b) && RuleCovered(b, c) {
      SinglesTransitive(a.srcAddrs, b.srcAddrs, c.srcAddrs);
      SinglesTransitive(a.dstAddrs, b.dstAddrs, c.dstAddrs);
      SinglesTransitive(a.services, b.services, c.services);
    }
  }

  // ----- the evidence

  /** A planned value that is reported: its first covering value is a different one. */
  predicate Listed(existing: seq<Resolved>, p: Resolved) {
    FirstCovering(existing, p.value).Some? && FirstCovering(existing, p.value).value.value != p.value
  }

  /** The reported planned values whose first covering value has evidence `key`, in planned order. */
  function ReportedUnder(existing: seq<Resolved>, planned: seq<Resolved>, key: Evidence): seq<Evidence> {
    if planned == [] then []
    else
      var init, p := ReportedUnder(existing, planned[..|planned| - 1], key), planned[|planned| - 1];
      if Listed(existing, p) && FirstCovering(existing, p.value).value.evidence == key
        then init + [p.evidence] else init
  }

  function CoveredOf(groups: seq<CoverGroup>, key: Evidence): seq<Evidence> {
    if groups == [] then []
    else if groups[0].covering == key then groups[0].covered
    else CoveredOf(groups[1..], key)
  }

  ghost predicate DistinctKeys(groups: seq<CoverGroup>) {
    && (forall i, j :: 0 <= i < j < |groups| ==> groups[i].covering != groups[j].covering)
    && (forall g | g in groups :: g.covered != [])
  }

  lemma {:induction false} AddToMeaning(groups: seq<CoverGroup>, key: Evidence, item: Evidence, other: Evidence)
    requires DistinctKeys(groups)
    ensures DistinctKeys(AddTo(groups, key, item))
    ensures CoveredOf(AddTo(groups, key, item), other) == CoveredOf(groups, other) + if other == key then [item] else []
    ensures forall g | g in AddTo(groups, key, item) :: g.covering == key || exists h ::
      h in groups && h.covering == g.covering
  {
    if groups != [] {
      assert groups == [groups[0]] + groups[1..];
      assert DistinctKeys(groups[1..]) by { assert forall g | g in groups[1..] :: g in groups; }
      if groups[0].covering != key {
        AddToMeaning(groups[1..], key, item, other);
        var rest := AddTo(groups[1..], key, item);
        forall j | 0 <= j < |rest| ensures rest[j].covering != groups[0].covering { assert rest[j] in rest; }
      }
    }
  }

  /** Evidence is conserved: each reported value stands once, in planned order, under its covering value. */
  lemma {:induction false} EvidenceConserved(existing: seq<Resolved>, planned: seq<Resolved>, key: Evidence)
    requires Grouped(existing, planned).Some?
    ensures DistinctKeys(Grouped(existing, planned).value)
    ensures CoveredOf(Grouped(existing, planned).value, key) == ReportedUnder(existing, planned, key)
  {
    if planned != [] {
      var init, last := planned[..|planned| - 1], planned[|planned| - 1];
      EvidenceConserved(existing, init, key);
      var c := FirstCovering(existing, last.value).value;
      SignatureInjective(c.value, last.value);
      if c.value != last.value {
        AddToMeaning(Grouped(existing, init).value, c.evidence, last.evidence, key);
      }
    }
  }

  ghost predicate StrictlyInside(v: Value, w: Value) { Includes(w, v) && !Includes(v, w) }

  /** A reported value lies strictly inside an existing one; an unreported one exists unchanged. */
  lemma ReportedAreStrict(existing: seq<Resolved>, planned: seq<Resolved>, p: Resolved)
    requires AllValid(existing) && AllValid(planned) && Grouped(existing, planned).Some? && p in planned
    ensures Listed(existing, p) ==> exists w :: w in existing && StrictlyInside(p.value, w.value)
                                             && p.evidence in ReportedUnder(existing, planned, w.evidence)
    ensures !Listed(existing, p) ==> exists w :: w in existing && SignatureOf(w.value) == SignatureOf(p.value)
  {
    GroupedCovered(existing, planned);
    var c := FirstCovering(existing, p.value).value;
    CoversIsInclusion(c.value, p.value);
    CoversIsInclusion(p.value, c.value);
    if Listed(existing, p) {
      if Covers(p.value, c.value) { CoversAntisymmetric(p.value, c.value); }
      ListedIn(existing, planned, p);
    }
  }

  lemma {:induction false} ListedIn(existing: seq<Resolved>, planned: seq<Resolved>, p: Resolved)
    requires p in planned && Listed(existing, p)
    ensures p.evidence in ReportedUnder(existing, planned, FirstCovering(existing, p.value).value.evidence)
  {
    var init, last := planned[..|planned| - 1], planned[|planned| - 1];
    if p != last {
      assert planned == init + [last];
      ListedIn(existing, init, p);
    }
  }

  /** The value at `i` covers `v`, the one at `j` equals it, and none up to `i` does. */
  ghost predicate WiderAt(existing: seq<Resolved>, v: Value, i: nat, j: nat) {
    && i < j < |existing| && Covers(existing[i].value, v) && existing[j].value == v
    && forall k :: 0 <= k <= i ==> existing[k].value != v
  }

  /** A covering value comes before the first value equal to `v`, which does come. */
  ghost predicate WiderComesFirst(existing: seq<Resolved>, v: Value) {
    exists i: nat, j: nat :: WiderAt(existing, v, i, j)
  }

  ghost predicate HasEqual(existing: seq<Resolved>, v: Value) { exists e :: e in existing && e.value == v }

  /** A value is reported although an equal one exists exactly when a wider one comes first. */
  lemma {:induction false} ListedThoughEqual(existing: seq<Resolved>, p: Resolved)
    ensures Listed(existing, p) && HasEqual(existing, p.value) <==> WiderComesFirst(existing, p.value)
  {
    hide Covers;
    var v := p.value;
    if existing != [] {
      var head, rest := existing[0], existing[1..];
      assert existing == [head] + rest;
      CoversReflexive(v);
      if head.value == v {
        assert !WiderComesFirst(existing, v);
      } else if Covers(head.value, v) {
        if HasEqual(existing, v) {
          var e :| e in existing && e.value == v;
          var j: nat :| j < |existing| && existing[j] == e;
          assert WiderAt(existing, v, 0, j);
        }
        if WiderComesFirst(existing, v) {
          var i: nat, j: nat :| WiderAt(existing, v, i, j);
          assert existing[j] in existing;
        }
      } else {
        ListedThoughEqual(rest, p);
        WiderInTail(existing, v);
      }
    }
  }

  lemma WiderInTail(existing: seq<Resolved>, v: Value)
    requires existing != [] && existing[0].value != v && !Covers(existing[0].value, v)
    ensures WiderComesFirst(existing, v) <==> WiderComesFirst(existing[1..], v)
  {
    hide Covers;
    if WiderComesFirst(existing, v) {
      var i: nat, j: nat :| WiderAt(existing, v, i, j);
      assert i > 0;
      WiderShift(existing, v, i - 1, j - 1);
    }
    if WiderComesFirst(existing[1..], v) {
      var i: nat, j: nat :| WiderAt(existing[1..], v, i, j);
      WiderShift(existing, v, i, j);
    }
  }

  lemma WiderShift(existing: seq<Resolved>, v: Value, i: nat, j: nat)
    requires existing != [] && existing[0].value != v
    ensures WiderAt(existing[1..], v, i, j) <==> WiderAt(existing, v, i + 1, j + 1)
  {
    hide Covers;
    var rest := existing[1..];
    assert forall k :: 0 <= k < |rest| ==> rest[k] == existing[k + 1];
    if WiderAt(existing, v, i + 1, j + 1) {
      forall k | 0 <= k <= i ensures rest[k].value != v { assert existing[k + 1].value != v; }
    }
    if WiderAt(rest, v, i, j) {
      forall k | 0 <= k <= i + 1 ensures existing[k].value != v { if k > 0 { assert rest[k - 1].value != v; } }
    }
  }

  /** So a covered value is left out of the report exactly when an equal value comes before every wider one. */
  lemma ReportedExactly(existing: seq<Resolved>, p: Resolved)
    requires FirstCovering(existing, p.value).Some?
    ensures Listed(existing, p) <==> !HasEqual(existing, p.value) || WiderComesFirst(existing, p.value)
  {
    ListedThoughEqual(existing, p);
  }

  /** An address range before a host of it: the host is reported under the range, although the host exists too. */
  lemma EqualValueReported(range: Evidence, host: Evidence, planned: Evidence)
    ensures var existing := [Resolved(Span(0, 9), range), Resolved(Span(3, 3), host)];
      AnalyzeValues(existing, [Resolved(Span(3, 3), planned)]) == Some([CoverGroup(range, [planned])])
  {
    var existing := [Resolved(Span(0, 9), range), Resolved(Span(3, 3), host)];
    var p := Resolved(Span(3, 3), planned);
    assert [p][..0] == [];
    assert FirstCovering(existing, p.value) == Some(existing[0]);
    assert Grouped(existing, []) == Some([]);
  }

  function Keys(groups: seq<CoverGroup>): seq<Evidence> {
    seq(|groups|, i requires 0 <= i < |groups| => groups[i].covering)
  }

  /** Covering evidences in the order in which planned values first need them. */
  function KeysInOrder(existing: seq<Resolved>, planned: seq<Resolved>): seq<Evidence> {
    if planned == [] then []
    else
      var init, p := KeysInOrder(existing, planned[..|planned| - 1]), planned[|planned| - 1];
      if !Listed(existing, p) || FirstCovering(existing, p.value).value.evidence in init then init
      else init + [FirstCovering(existing, p.value).value.evidence]
  }

  lemma {:induction false} AddToKeys(groups: seq<CoverGroup>, key: Evidence, item: Evidence)
    ensures Keys(AddTo(groups, key, item)) == if key in Keys(groups) then Keys(groups) else Keys(groups) + [key]
  {
    if groups != [] {
      assert Keys(groups) == [groups[0].covering] + Keys(groups[1..]);
      if groups[0].covering != key {
        AddToKeys(groups[1..], key, item);
        assert Keys(AddTo(groups, key, item)) == [groups[0].covering] + Keys(AddTo(groups[1..], key, item));
      }
    }
  }

  /** Entries appear in the order in which their covering values were first needed. */
  lemma {:induction false} EvidenceOrdered(existing: seq<Resolved>, planned: seq<Resolved>)
    requires Grouped(existing, planned).Some?
    ensures Keys(Grouped(existing, planned).value) == KeysInOrder(existing, planned)
  {
    if planned != [] {
      var init, last := planned[..|planned| - 1], planned[|planned| - 1];
      EvidenceOrdered(existing, init);
      var c := FirstCovering(existing, last.value).value;
      SignatureInjective(c.value, last.value);
      AddToKeys(Grouped(existing, init).value, c.evidence, last.evidence);
    }
  }
}
