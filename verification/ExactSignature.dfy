/** The exact signature of a normalised rule and what it identifies. */
module ExactSignature {
  import opened Order
  import opened Json
  import opened JsonHash
  import opened RuleValues
  import opened Rules

  /** No hash collisions, and distinct signatures have distinct `repr`. */
  ghost predicate Faithful(prim: Primitives) {
    CollisionFree(prim.hash) && CollisionFree(prim.repr)
  }

  function ActionText(a: Action): string {
    match a case Accept => "ACCEPT" case Reject => "REJECT" case Drop => "DROP"
  }

  function TextList(texts: seq<string>): Json {
    List(seq(|texts|, i requires 0 <= i < |texts| => Str(texts[i])))
  }

  /** Signature tuples are neither dict nor list to `normalize`, so they enter as their `str`. */
  function SignatureList(prim: Primitives, values: set<Value>): Json {
    var reprs := SortedSet(set v | v in values :: prim.repr(SignatureOf(v)));
    List(seq(|reprs|, i requires 0 <= i < |reprs| => Other(reprs[i])))
  }

  function Payload(prim: Primitives, n: NormalizedValues): Json {
    Obj(map[
      "action" := Str(ActionText(n.action)),
      "src_zones" := TextList(SortedSet(n.srcZones)),
      "dst_zones" := TextList(SortedSet(n.dstZones)),
      "src_addresses" := SignatureList(prim, n.srcAddrs),
      "dst_addresses" := SignatureList(prim, n.dstAddrs),
      "services" := SignatureList(prim, n.services)])
  }

  function ExactSignatureOf(prim: Primitives, n: NormalizedValues): string {
    JsonHash.JsonHash(prim.hash, Payload(prim, n))
  }

  /** A list of scalars and the texts they render to. */
  ghost predicate RendersAs(items: seq<Json>, texts: seq<string>) {
    |items| == |texts| && forall i :: 0 <= i < |items| ==> Scalar(items[i]) && StrOf(items[i]) == texts[i]
  }

  lemma NormalTexts(items: seq<Json>, texts: seq<string>, t: string)
    requires RendersAs(items, texts)
    ensures Text(t) in multiset(NormalizeAll(items)) <==> t in texts
  {
    var s := NormalizeAll(items);
    forall i | 0 <= i < |s| ensures s[i] == Text(texts[i]) { assert s[i] == Normalize(items[i]); }
    if t in texts {
      var i :| 0 <= i < |texts| && texts[i] == t;
      assert s[i] in s;
    }
  }

  /** Lists of scalars that normalise alike hold the same texts. */
  lemma SameTexts(xs: seq<Json>, s: seq<string>, ys: seq<Json>, t: seq<string>)
    requires RendersAs(xs, s) && RendersAs(ys, t) && Normalize(List(xs)) == Normalize(List(ys))
    ensures forall text :: text in s <==> text in t
  {
    hide Normalize, RendersAs;
    DumpsInjectiveOn(NormalizeAll(xs));
    SortForgetsOrder(Dumps, NormalizeAll(xs), NormalizeAll(ys));
    assert multiset(NormalizeAll(xs)) == multiset(NormalizeAll(ys)) by { NormalizedItems(xs); NormalizedItems(ys); }
    forall text ensures text in s <==> text in t {
      NormalTexts(xs, s, text);
      NormalTexts(ys, t, text);
    }
  }

  lemma NormalizedItems(xs: seq<Json>)
    ensures Normalize(List(xs)) == Items(SortBy(Dumps, NormalizeAll(xs)))
  {
  }

  lemma TextsRender(texts: seq<string>)
    ensures RendersAs(TextList(texts).items, texts) && TextList(texts) == List(TextList(texts).items)
  {
  }

  lemma SameZones(a: set<string>, b: set<string>)
    requires Normalize(TextList(SortedSet(a))) == Normalize(TextList(SortedSet(b)))
    ensures a == b
  {
    hide Normalize, TextList, RendersAs;
    var s, t := SortedSet(a), SortedSet(b);
    TextsRender(s);
    TextsRender(t);
    SameTexts(TextList(s).items, s, TextList(t).items, t);
    SameElements(a, b, s, t);
  }

  lemma SameElements(a: set<string>, b: set<string>, s: seq<string>, t: seq<string>)
    requires (forall x :: x in s <==> x in a) && (forall x :: x in t <==> x in b) && forall x :: x in s <==> x in t
    ensures a == b
  {
    forall x ensures x in a <==> x in b { assert x in s <==> x in t; }
  }

  ghost function Reprs(prim: Primitives, values: set<Value>): set<string> {
    set v | v in values :: prim.repr(SignatureOf(v))
  }

  lemma ReprIn(prim: Primitives, values: set<Value>, v: Value)
    requires CollisionFree(prim.repr)
    ensures prim.repr(SignatureOf(v)) in Reprs(prim, values) <==> v in values
  {
    if prim.repr(SignatureOf(v)) in Reprs(prim, values) {
      var w :| w in values && prim.repr(SignatureOf(w)) == prim.repr(SignatureOf(v));
      SignatureInjective(v, w);
    }
  }

  lemma SignaturesRender(prim: Primitives, values: set<Value>)
    ensures RendersAs(SignatureList(prim, values).items, SortedSet(Reprs(prim, values)))
    ensures SignatureList(prim, values) == List(SignatureList(prim, values).items)
  {
  }

  lemma SameValues(prim: Primitives, a: set<Value>, b: set<Value>)
    requires CollisionFree(prim.repr)
    requires Normalize(SignatureList(prim, a)) == Normalize(SignatureList(prim, b))
    ensures a == b
  {
    hide Normalize, SignatureList, RendersAs, Reprs, CollisionFree, SignatureOf;
    var s, t := SortedSet(Reprs(prim, a)), SortedSet(Reprs(prim, b));
    SignaturesRender(prim, a);
    SignaturesRender(prim, b);
    SameTexts(SignatureList(prim, a).items, s, SignatureList(prim, b).items, t);
    SameElements(Reprs(prim, a), Reprs(prim, b), s, t);
    forall v ensures v in a <==> v in b {
      ReprIn(prim, a, v);
      ReprIn(prim, b, v);
    }
  }

  lemma SameField(a: Json, b: Json, key: string)
    requires a.Obj? && b.Obj? && Normalize(a) == Normalize(b) && key in a.fields && key in b.fields
    ensures Normalize(a.fields[key]) == Normalize(b.fields[key])
  {
    NormalizeObject(a.fields, b.fields);
  }

  lemma SameAction(a: Action, b: Action)
    requires Normalize(Str(ActionText(a))) == Normalize(Str(ActionText(b)))
    ensures a == b
  {
    assert ActionText(a)[0] == ActionText(b)[0];
  }

  /** Equal payloads field by field. */
  lemma SamePayload(prim: Primitives, a: NormalizedValues, b: NormalizedValues)
    requires Normalize(Payload(prim, a)) == Normalize(Payload(prim, b))
    ensures Normalize(Str(ActionText(a.action))) == Normalize(Str(ActionText(b.action)))
    ensures Normalize(TextList(SortedSet(a.srcZones))) == Normalize(TextList(SortedSet(b.srcZones)))
    ensures Normalize(TextList(SortedSet(a.dstZones))) == Normalize(TextList(SortedSet(b.dstZones)))
    ensures Normalize(SignatureList(prim, a.srcAddrs)) == Normalize(SignatureList(prim, b.srcAddrs))
    ensures Normalize(SignatureList(prim, a.dstAddrs)) == Normalize(SignatureList(prim, b.dstAddrs))
    ensures Normalize(SignatureList(prim, a.services)) == Normalize(SignatureList(prim, b.services))
  {
    hide Normalize, SignatureList, TextList, SortedSet, ActionText;
    var p, q := Payload(prim, a), Payload(prim, b);
    SameField(p, q, "action");
    SameField(p, q, "src_zones");
    SameField(p, q, "dst_zones");
    SameField(p, q, "src_addresses");
    SameField(p, q, "dst_addresses");
    SameField(p, q, "services");
  }

  /** Without collisions, equal exact signatures mean equal normalised rules, and conversely. */
  lemma ExactSignatureIdentifies(prim: Primitives, a: NormalizedValues, b: NormalizedValues)
    requires Faithful(prim)
    ensures ExactSignatureOf(prim, a) == ExactSignatureOf(prim, b) <==> a == b
  {
    hide Normalize, Payload, SignatureList, TextList, SortedSet, ActionText;
    if ExactSignatureOf(prim, a) == ExactSignatureOf(prim, b) {
      DumpsInjective(Normalize(Payload(prim, a)), Normalize(Payload(prim, b)));
      hide Faithful, CollisionFree;
      SamePayload(prim, a, b);
      SameZones(a.srcZones, b.srcZones);
      SameZones(a.dstZones, b.dstZones);
      SameValues(prim, a.srcAddrs, b.srcAddrs);
      SameValues(prim, a.dstAddrs, b.dstAddrs);
      SameValues(prim, a.services, b.services);
      SameAction(a.action, b.action);
    }
  }
}
