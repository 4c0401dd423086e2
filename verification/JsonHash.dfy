/** What `json_hash` identifies: JSON values equal up to list order and `str()` of scalars. */
module JsonHash {
  import opened Order
  import opened Permutations
  import opened Json

  /** Equality up to permuting lists at every depth and rendering scalars with `str()`. */
  ghost predicate Equivalent(a: Json, b: Json)
    decreases a
  {
    match (a, b)
    case (List(xs), List(ys)) =>
      |xs| == |ys| &&
      exists p: seq<nat> :: IsPermutation(p, |xs|) && forall i | 0 <= i < |xs| :: Equivalent(xs[i], ys[p[i]])
    case (Obj(m), Obj(n)) =>
      m.Keys == n.Keys && forall k | k in m :: Equivalent(m[k], n[k])
    case _ =>
      Scalar(a) && Scalar(b) && StrOf(a) == StrOf(b)
  }

  lemma DumpsInjectiveOn(s: seq<Normal>)
    ensures InjectiveOn(Dumps, s)
  {
    forall x, y | x in s && y in s && Dumps(x) == Dumps(y) ensures x == y {
      DumpsInjective(x, y);
    }
  }

  /** Two lists normalise alike exactly when some rearrangement matches item by item. */
  lemma NormalizeList(xs: seq<Json>, ys: seq<Json>)
    ensures Normalize(List(xs)) == Normalize(List(ys)) <==>
      |xs| == |ys| &&
      exists p: seq<nat> :: IsPermutation(p, |xs|) && forall i | 0 <= i < |xs| ::
        Normalize(xs[i]) == Normalize(ys[p[i]])
  {
    var s, t := NormalizeAll(xs), NormalizeAll(ys);
    DumpsInjectiveOn(s);
    SortForgetsOrder(Dumps, s, t);
    if multiset(s) == multiset(t) {
      var p := PermutationOf(s, t);
      assert forall i | 0 <= i < |xs| :: s[i] == t[p[i]];
    }
    if |xs| == |ys| {
      forall p: seq<nat> | IsPermutation(p, |xs|) && forall i | 0 <= i < |xs| :: Normalize(xs[i]) == Normalize(ys[p[i]])
        ensures multiset(s) == multiset(t)
      {
        assert forall i | 0 <= i < |s| :: s[i] == t[p[i]];
        PermutedSame(s, t, p);
      }
    }
  }

  /** `normalize` is a canonical form of equivalence. */
  lemma {:induction false} NormalizeCanonical(a: Json, b: Json)
    ensures Normalize(a) == Normalize(b) <==> Equivalent(a, b)
    decreases a
  {
    match (a, b)
    case (List(xs), List(ys)) =>
      NormalizeList(xs, ys);
      forall x, y | x in xs && y in ys ensures Normalize(x) == Normalize(y) <==> Equivalent(x, y) {
        NormalizeCanonical(x, y);
      }
    case (Obj(m), Obj(n)) =>
      forall k | k in m && k in n ensures Normalize(m[k]) == Normalize(n[k]) <==> Equivalent(m[k], n[k]) {
        NormalizeCanonical(m[k], n[k]);
      }
      NormalizeObject(m, n);
    case _ =>
  }

  lemma NormalizeObject(m: map<string, Json>, n: map<string, Json>)
    ensures Normalize(Obj(m)) == Normalize(Obj(n)) <==>
      m.Keys == n.Keys && forall k | k in m :: Normalize(m[k]) == Normalize(n[k])
  {
    var p, q := Normalize(Obj(m)).fields, Normalize(Obj(n)).fields;
    assert p.Keys == m.Keys && q.Keys == n.Keys;
    if p == q {
      forall k | k in m ensures Normalize(m[k]) == Normalize(n[k]) { assert p[k] == q[k]; }
    }
  }

  /** `json_hash` over an arbitrary string hash. */
  function JsonHash(hash: string -> string, j: Json): string {
    hash(Dumps(Normalize(j)))
  }

  ghost predicate CollisionFree<T(!new)>(hash: T -> string) {
    forall x, y :: hash(x) == hash(y) ==> x == y
  }

  /** Without hash collisions, equal hashes mean exactly equal values up to list order. */
  lemma HashIdentifies(hash: string -> string, a: Json, b: Json)
    requires CollisionFree(hash)
    ensures JsonHash(hash, a) == JsonHash(hash, b) <==> Equivalent(a, b)
  {
    DumpsInjective(Normalize(a), Normalize(b));
    NormalizeCanonical(a, b);
  }

  /** Hence order insensitivity needs no assumption on the hash at all. */
  lemma HashIgnoresOrder(hash: string -> string, a: Json, b: Json)
    requires Equivalent(a, b)
    ensures JsonHash(hash, a) == JsonHash(hash, b)
  {
    NormalizeCanonical(a, b);
  }

  /** Scalars enter the hash as their text: a value is not told apart from that text. */
  lemma ScalarsAreTexts(hash: string -> string, j: Json, t: string)
    requires CollisionFree(hash) && Scalar(j)
    ensures JsonHash(hash, j) == JsonHash(hash, Str(t)) <==>
      match j
      case Null => t == "None"
      case Bool(b) => t == if b then "True" else "False"
      case Int(n) => t == IntText(n)
      case Str(s) => t == s
      case Other(r) => t == r
  {
    HashIdentifies(hash, j, Str(t));
    hide JsonHash, CollisionFree;
  }
}
