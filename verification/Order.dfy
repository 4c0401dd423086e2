/** Code-point order on strings, and Python's stable `sorted` with a string key. */
module Order {

  /** `a <= b` as Python compares two strings. */
  predicate StrLe(a: string, b: string) {
    a == "" || (b != "" && (a[0] < b[0] || (a[0] == b[0] && StrLe(a[1..], b[1..]))))
  }

  lemma {:induction false} StrLeTotal(a: string, b: string)
    ensures StrLe(a, b) || StrLe(b, a)
  {
    if a != "" && b != "" && a[0] == b[0] {
      StrLeTotal(a[1..], b[1..]);
    }
  }

  lemma {:induction false} StrLeAntisymmetric(a: string, b: string)
    requires StrLe(a, b) && StrLe(b, a)
    ensures a == b
  {
    if a != "" {
      StrLeAntisymmetric(a[1..], b[1..]);
      assert a == [a[0]] + a[1..] && b == [b[0]] + b[1..];
    }
  }

  lemma {:induction false} StrLeTransitive(a: string, b: string, c: string)
    requires StrLe(a, b) && StrLe(b, c)
    ensures StrLe(a, c)
  {
    if a != "" && a[0] == b[0] && b[0] == c[0] {
      StrLeTransitive(a[1..], b[1..], c[1..]);
    }
  }

  ghost predicate Sorted<T>(key: T -> string, s: seq<T>) {
    forall i, j :: 0 <= i < j < |s| ==> StrLe(key(s[i]), key(s[j]))
  }

  /** Insert before the first element whose key is not smaller, so equal keys keep their order. */
  function Insert<T>(key: T -> string, x: T, s: seq<T>): seq<T> {
    if s == [] then [x]
    else if StrLe(key(x), key(s[0])) then [x] + s
    else [s[0]] + Insert(key, x, s[1..])
  }

  function SortBy<T>(key: T -> string, s: seq<T>): seq<T> {
    if s == [] then [] else Insert(key, s[0], SortBy(key, s[1..]))
  }

  lemma {:induction false} InsertSorted<T>(key: T -> string, x: T, s: seq<T>)
    requires Sorted(key, s)
    ensures Sorted(key, Insert(key, x, s))
    ensures multiset(Insert(key, x, s)) == multiset([x]) + multiset(s)
  {
    if s == [] {
    } else if StrLe(key(x), key(s[0])) {
      forall j | 0 <= j < |s| ensures StrLe(key(x), key(s[j])) {
        if j > 0 { StrLeTransitive(key(x), key(s[0]), key(s[j])); }
      }
    } else {
      StrLeTotal(key(x), key(s[0]));
      assert s == [s[0]] + s[1..];
      InsertSorted(key, x, s[1..]);
      var rest := Insert(key, x, s[1..]);
      forall j | 0 <= j < |rest| ensures StrLe(key(s[0]), key(rest[j])) {
        assert rest[j] in multiset(rest);
        assert rest[j] == x || rest[j] in s[1..];
      }
    }
  }

  lemma {:induction false} SortBySorts<T>(key: T -> string, s: seq<T>)
    ensures Sorted(key, SortBy(key, s))
    ensures multiset(SortBy(key, s)) == multiset(s)
  {
    if s != [] {
      assert s == [s[0]] + s[1..];
      SortBySorts(key, s[1..]);
      InsertSorted(key, s[0], SortBy(key, s[1..]));
    }
  }

  /** The elements with one key, in order. */
  function WithKey<T>(key: T -> string, k: string, s: seq<T>): seq<T> {
    if s == [] then [] else (if key(s[0]) == k then [s[0]] else []) + WithKey(key, k, s[1..])
  }

  lemma WithKeyCons<T>(key: T -> string, k: string, x: T, s: seq<T>)
    ensures WithKey(key, k, [x] + s) == if key(x) == k then [x] + WithKey(key, k, s) else WithKey(key, k, s)
  {
    assert ([x] + s)[1..] == s;
  }

  lemma {:induction false} InsertStable<T>(key: T -> string, x: T, s: seq<T>, k: string)
    ensures WithKey(key, k, Insert(key, x, s)) == if key(x) == k then [x] + WithKey(key, k, s) else WithKey(key, k, s)
  {
    hide WithKey;
    if s == [] {
      WithKeyCons(key, k, x, []);
      assert [x] + [] == [x];
    } else if StrLe(key(x), key(s[0])) {
      WithKeyCons(key, k, x, s);
    } else {
      StrLeTotal(key(x), key(x));
      InsertStable(key, x, s[1..], k);
      WithKeyCons(key, k, s[0], s[1..]);
      WithKeyCons(key, k, s[0], Insert(key, x, s[1..]));
      assert s == [s[0]] + s[1..];
    }
  }

  /** Elements with equal keys keep their order. */
  lemma {:induction false} SortByStable<T>(key: T -> string, s: seq<T>, k: string)
    ensures WithKey(key, k, SortBy(key, s)) == WithKey(key, k, s)
  {
    if s != [] {
      SortByStable(key, s[1..], k);
      InsertStable(key, s[0], SortBy(key, s[1..]), k);
    }
  }

  ghost predicate InjectiveOn<T>(key: T -> string, s: seq<T>) {
    forall x, y | x in s && y in s && key(x) == key(y) :: x == y
  }

  lemma LeastHeads<T>(key: T -> string, s: seq<T>, t: seq<T>)
    requires Sorted(key, s) && s != [] && t != [] && t[0] in s
    ensures StrLe(key(s[0]), key(t[0]))
  {
    var j :| 0 <= j < |s| && s[j] == t[0];
    if j == 0 { StrLeTotal(key(s[0]), key(s[0])); }
  }

  lemma TailsSameElements<T>(s: seq<T>, t: seq<T>)
    requires s != [] && t != [] && s[0] == t[0] && multiset(s) == multiset(t)
    ensures multiset(s[1..]) == multiset(t[1..])
  {
    assert s == [s[0]] + s[1..] && t == [t[0]] + t[1..];
    assert multiset(s[1..]) == multiset(s) - multiset{s[0]};
    assert multiset(t[1..]) == multiset(t) - multiset{t[0]};
  }

  lemma SameHeads<T>(key: T -> string, s: seq<T>, t: seq<T>)
    requires Sorted(key, s) && Sorted(key, t) && multiset(s) == multiset(t)
    requires InjectiveOn(key, s) && s != [] && t != []
    ensures s[0] == t[0]
  {
    assert s[0] in multiset(t) && t[0] in multiset(s);
    LeastHeads(key, s, t);
    LeastHeads(key, t, s);
    StrLeAntisymmetric(key(s[0]), key(t[0]));
  }

  /** Two sorted arrangements of the same elements are the same list when keys are distinct. */
  lemma {:induction false} SortedUnique<T>(key: T -> string, s: seq<T>, t: seq<T>)
    requires Sorted(key, s) && Sorted(key, t) && multiset(s) == multiset(t)
    requires InjectiveOn(key, s)
    ensures s == t
  {
    assert |s| == |multiset(s)| == |multiset(t)| == |t|;
    if s != [] {
      SameHeads(key, s, t);
      TailsSameElements(s, t);
      SortedUnique(key, s[1..], t[1..]);
    }
  }

  /** Sorting forgets exactly the order of the list. */
  lemma SortForgetsOrder<T>(key: T -> string, s: seq<T>, t: seq<T>)
    requires InjectiveOn(key, s)
    ensures SortBy(key, s) == SortBy(key, t) <==> multiset(s) == multiset(t)
  {
    SortBySorts(key, s);
    SortBySorts(key, t);
    if multiset(s) == multiset(t) {
      forall x | x in SortBy(key, s) ensures x in s { assert x in multiset(SortBy(key, s)); }
      SortedUnique(key, SortBy(key, s), SortBy(key, t));
    }
  }

  lemma {:induction false} LeastExists(s: set<string>)
    requires s != {}
    ensures exists m :: m in s && forall x | x in s :: StrLe(m, x)
  {
    var y :| y in s;
    StrLeTotal(y, y);
    if s != {y} {
      var rest := s - {y};
      assert s == rest + {y};
      LeastExists(rest);
      var m :| m in rest && forall x | x in rest :: StrLe(m, x);
      StrLeTotal(m, y);
      if StrLe(m, y) {
        assert forall x | x in s :: StrLe(m, x);
      } else {
        forall x | x in s ensures StrLe(y, x) {
          if x != y { StrLeTransitive(y, m, x); }
        }
      }
    }
  }

  function Least(s: set<string>): (m: string)
    requires s != {}
    ensures m in s && forall x | x in s :: StrLe(m, x)
  {
    LeastExists(s);
    assert forall m, n | m in s && n in s && (forall x | x in s :: StrLe(m, x)) && (forall x | x in s :: StrLe(n, x)) ::
      m == n by {
      forall m, n | m in s && n in s && (forall x | x in s :: StrLe(m, x)) && (forall x | x in s :: StrLe(n, x))
        ensures m == n
      {
        StrLeAntisymmetric(m, n);
      }
    }
    var m :| m in s && forall x | x in s :: StrLe(m, x);
    m
  }

  /** Python's `sorted` of a set of strings. */
  function SortedSet(s: set<string>): (r: seq<string>)
    ensures forall x :: x in r <==> x in s
    ensures |r| == |s|
    decreases |s|
  {
    if s == {} then [] else [Least(s)] + SortedSet(s - {Least(s)})
  }

  lemma {:induction false} SortedSetSorted(s: set<string>)
    ensures forall i, j :: 0 <= i < j < |SortedSet(s)| ==> StrLe(SortedSet(s)[i], SortedSet(s)[j])
    decreases |s|
  {
    if s != {} {
      var rest := s - {Least(s)};
      SortedSetSorted(rest);
      forall j | 0 <= j < |SortedSet(rest)| ensures StrLe(Least(s), SortedSet(rest)[j]) {
        assert SortedSet(rest)[j] in rest;
      }
    }
  }

  lemma SortedSetInjective(s: set<string>, t: set<string>)
    ensures SortedSet(s) == SortedSet(t) <==> s == t
  {
    if SortedSet(s) == SortedSet(t) {
      forall x ensures x in s <==> x in t { assert x in SortedSet(s) <==> x in s; }
    }
  }
}
