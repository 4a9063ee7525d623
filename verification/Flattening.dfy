// Sequences made of parts, and what maps do to them.
module Flattening {
  import opened Sequences
  import opened Sorting

  // ---------------------------------------------------------------- maps

  lemma {:induction false} MapSplits<T, B>(f: T -> B, a: seq<T>, b: seq<T>)
    ensures Map(f, a + b) == Map(f, a) + Map(f, b)
  {
  }

  lemma {:induction false} MapGrows<T, B>(f: T -> B, s: seq<T>, n: nat)
    requires n < |s|
    ensures Map(f, s[..n + 1]) == Map(f, s[..n]) + [f(s[n])]
  {
  }

  lemma {:induction false} MapComposed<T, B, C>(g: T -> B, f: B -> C, h: T -> C, s: seq<T>)
    requires forall x | x in s :: f(g(x)) == h(x)
    ensures Map(f, Map(g, s)) == Map(h, s)
  {
    forall i | 0 <= i < |s|
      ensures f(g(s[i])) == h(s[i])
    {
      assert s[i] in s;
    }
  }

  lemma {:induction false} SameMap<T, B>(f: T -> B, g: T -> B, s: seq<T>)
    requires forall x | x in s :: f(x) == g(x)
    ensures Map(f, s) == Map(g, s)
  {
    forall i | 0 <= i < |s|
      ensures f(s[i]) == g(s[i])
    {
      assert s[i] in s;
    }
  }

  lemma {:induction false} InMap<T, B>(f: T -> B, s: seq<T>, y: B)
    ensures y in Map(f, s) <==> exists t | t in s :: f(t) == y
  {
    if y in Map(f, s) {
      var k := MapIndex(f, s, y);
      assert s[k] in s;
    }
    forall t | t in s && f(t) == y
      ensures y in Map(f, s)
    {
      var k :| 0 <= k < |s| && s[k] == t;
      assert Map(f, s)[k] == y;
    }
  }

  lemma {:induction false} MapOfMiddle<A, B>(f: A -> B, a: seq<A>, x: A, b: seq<A>)
    ensures multiset(Map(f, a + ([x] + b))) == multiset{f(x)} + multiset(Map(f, a + b))
  {
    MapSplits(f, a, [x] + b);
    MapSplits(f, [x], b);
    MapSplits(f, a, b);
    assert Map(f, [x]) == [f(x)];
  }

  lemma {:induction false} MapOfPermutation<A, B>(f: A -> B, a: seq<A>, b: seq<A>)
    requires multiset(a) == multiset(b)
    ensures multiset(Map(f, a)) == multiset(Map(f, b))
  {
    assert |multiset(b)| == |b| && |multiset(a)| == |a|;
    if a != [] {
      assert a[0] in multiset(b);
      var k :| 0 <= k < |b| && b[k] == a[0];
      WithoutFirst(a, b, k);
      MapOfPermutation(f, a[1..], b[..k] + b[k + 1..]);
      assert a == [a[0]] + a[1..];
      assert b == b[..k] + ([a[0]] + b[k + 1..]);
      MapsAgree(f, a[0], a[1..], b[..k], b[k + 1..]);
    }
  }

  lemma {:induction false} MapsAgree<A, B>(f: A -> B, x: A, rest: seq<A>, u: seq<A>, v: seq<A>)
    requires multiset(Map(f, rest)) == multiset(Map(f, u + v))
    ensures multiset(Map(f, [x] + rest)) == multiset(Map(f, u + ([x] + v)))
  {
    MapOfMiddle(f, [], x, rest);
    assert [] + ([x] + rest) == [x] + rest && [] + rest == rest;
    MapOfMiddle(f, u, x, v);
  }

  lemma {:induction false} MultisetOfMiddle<A>(a: seq<A>, x: A, b: seq<A>)
    ensures multiset(a + ([x] + b)) == multiset{x} + multiset(a + b)
  {
  }

  lemma {:induction false} WithoutFirst<A>(a: seq<A>, b: seq<A>, k: nat)
    requires a != [] && k < |b| && b[k] == a[0] && multiset(a) == multiset(b)
    ensures multiset(b[..k] + b[k + 1..]) == multiset(a[1..])
  {
    var rest := b[..k] + b[k + 1..];
    assert b == b[..k] + ([a[0]] + b[k + 1..]);
    MultisetOfMiddle(b[..k], a[0], b[k + 1..]);
    assert a == [] + ([a[0]] + a[1..]) && [] + a[1..] == a[1..];
    MultisetOfMiddle([], a[0], a[1..]);
    Cancel(a[0], multiset(rest), multiset(a[1..]));
  }

  lemma {:induction false} MappedIsThere<T, B>(f: T -> B, s: seq<T>, x: T, m: seq<B>)
    requires x in s && multiset(Map(f, s)) == multiset(m)
    ensures f(x) in m
  {
    var k :| 0 <= k < |s| && s[k] == x;
    assert Map(f, s)[k] in multiset(Map(f, s));
    assert f(x) in multiset(m);
  }

  lemma {:induction false} ListGrows<T, B>(start: seq<B>, f: T -> B, s: seq<T>, n: nat)
    requires n < |s|
    ensures start + Map(f, s[..n + 1]) == start + Map(f, s[..n]) + [f(s[n])]
  {
    MapGrows(f, s, n);
    Assoc3(start, Map(f, s[..n]), [f(s[n])]);
  }

  // ---------------------------------------------------------------- parts put together

  lemma {:induction false} FlattenSplits<T>(a: seq<seq<T>>, b: seq<seq<T>>)
    ensures Flatten(a + b) == Flatten(a) + Flatten(b)
  {
    if a == [] {
      assert a + b == b;
    } else {
      assert (a + b)[1..] == a[1..] + b;
      FlattenSplits(a[1..], b);
      Assoc3(a[0], Flatten(a[1..]), Flatten(b));
    }
  }

  lemma {:induction false} FlattenMapGrows<T, B>(f: T -> seq<B>, s: seq<T>, n: nat)
    requires n < |s|
    ensures Flatten(Map(f, s[..n + 1])) == Flatten(Map(f, s[..n])) + f(s[n])
  {
    MapGrows(f, s, n);
    var before := Map(f, s[..n]);
    FlattenSplits(before, [f(s[n])]);
    assert [f(s[n])][1..] == [];
    assert f(s[n]) + [] == f(s[n]);
  }

  lemma {:induction false} PartsGrow<T, B>(start: seq<B>, f: T -> seq<B>, s: seq<T>, n: nat)
    requires n < |s|
    ensures start + Flatten(Map(f, s[..n + 1])) == start + Flatten(Map(f, s[..n])) + f(s[n])
  {
    FlattenMapGrows(f, s, n);
    Assoc3(start, Flatten(Map(f, s[..n])), f(s[n]));
  }

  lemma {:induction false} FlattenMapSplits<T, B>(f: T -> seq<B>, a: seq<T>, b: seq<T>)
    ensures Flatten(Map(f, a + b)) == Flatten(Map(f, a)) + Flatten(Map(f, b))
  {
    MapSplits(f, a, b);
    FlattenSplits(Map(f, a), Map(f, b));
  }

  lemma {:induction false} FlattenMembers<T, B>(f: T -> seq<B>, s: seq<T>, y: B)
    ensures y in Flatten(Map(f, s)) <==> exists i | 0 <= i < |s| :: y in f(s[i])
  {
    if s != [] {
      FlattenMembers(f, s[1..], y);
      assert Map(f, s)[1..] == Map(f, s[1..]);
      assert Flatten(Map(f, s)) == f(s[0]) + Flatten(Map(f, s[1..]));
      assert forall i | 0 < i < |s| :: s[i] == s[1..][i - 1];
    }
  }

  lemma {:induction false} ListedIn<T, B>(f: T -> seq<B>, s: seq<T>, y: B)
    ensures y in Flatten(Map(f, s)) <==> exists x | x in s :: y in f(x)
  {
    FlattenMembers(f, s, y);
    if exists i | 0 <= i < |s| :: y in f(s[i]) {
      var i :| 0 <= i < |s| && y in f(s[i]);
      assert s[i] in s;
    }
    forall x | x in s && y in f(x)
      ensures exists i | 0 <= i < |s| :: y in f(s[i])
    {
      var i :| 0 <= i < |s| && s[i] == x;
    }
  }

  lemma {:induction false} MapOfFlatten<T, A, B>(f: A -> B, g: T -> seq<A>, h: T -> seq<B>, s: seq<T>)
    requires forall x | x in s :: h(x) == Map(f, g(x))
    ensures Flatten(Map(h, s)) == Map(f, Flatten(Map(g, s)))
  {
    if s != [] {
      assert forall x | x in s[1..] :: x in s;
      MapOfFlatten(f, g, h, s[1..]);
      assert Map(h, s)[1..] == Map(h, s[1..]) && Map(g, s)[1..] == Map(g, s[1..]);
      MapSplits(f, g(s[0]), Flatten(Map(g, s[1..])));
    }
  }

  // ---------------------------------------------------------------- keys that are not repeated

  lemma {:induction false} FilterKeepsUnique<T(!new)>(p: T -> bool, s: seq<T>, key: T -> Key)
    requires UniqueKeys(s, key)
    ensures UniqueKeys(Filter(p, s), key)
  {
    if s != [] {
      var rest := s[1..];
      assert forall i | 0 <= i < |rest| :: rest[i] == s[i + 1];
      FilterKeepsUnique(p, rest, key);
      FilterMembers(p, rest);
      var kept := Filter(p, rest);
      forall i | 0 <= i < |kept|
        ensures key(kept[i]) != key(s[0])
      {
        assert kept[i] in rest;
        var j :| 0 <= j < |rest| && rest[j] == kept[i];
        assert key(s[0]) != key(s[j + 1]);
      }
    }
  }

  ghost predicate KeysApart<T(!new)>(a: seq<T>, b: seq<T>, key: T -> Key) {
    forall x, y | x in a && y in b :: key(x) != key(y)
  }

  lemma {:induction false} UniqueConcatenation<T(!new)>(a: seq<T>, b: seq<T>, key: T -> Key)
    ensures UniqueKeys(a + b, key) <==> UniqueKeys(a, key) && UniqueKeys(b, key) && KeysApart(a, b, key)
  {
    var whole := a + b;
    if UniqueKeys(whole, key) {
      forall i, j | 0 <= i < j < |a|
        ensures key(a[i]) != key(a[j])
      {
        assert whole[i] == a[i] && whole[j] == a[j];
      }
      forall i, j | 0 <= i < j < |b|
        ensures key(b[i]) != key(b[j])
      {
        assert whole[|a| + i] == b[i] && whole[|a| + j] == b[j];
      }
      forall x, y | x in a && y in b
        ensures key(x) != key(y)
      {
        var i :| 0 <= i < |a| && a[i] == x;
        var j :| 0 <= j < |b| && b[j] == y;
        assert whole[i] == x && whole[|a| + j] == y;
      }
    }
  }

  ghost predicate PartsApart<T, B(!new)>(f: T -> seq<B>, s: seq<T>, key: B -> Key) {
    forall i, j | 0 <= i < j < |s| :: KeysApart(f(s[i]), f(s[j]), key)
  }

  lemma {:induction false} RestApart<T, B(!new)>(f: T -> seq<B>, s: seq<T>, key: B -> Key)
    requires s != []
    ensures PartsApart(f, s, key)
       <==> PartsApart(f, s[1..], key) && forall j | 0 <= j < |s[1..]| :: KeysApart(f(s[0]), f(s[1..][j]), key)
  {
    if PartsApart(f, s[1..], key) && forall j | 0 <= j < |s[1..]| :: KeysApart(f(s[0]), f(s[1..][j]), key) {
      forall i, j | 0 <= i < j < |s|
        ensures KeysApart(f(s[i]), f(s[j]), key)
      {
        if i == 0 {
          assert s[1..][j - 1] == s[j];
        } else {
          assert s[1..][i - 1] == s[i] && s[1..][j - 1] == s[j];
        }
      }
    }
  }

  lemma {:induction false} ApartFromAll<T, B(!new)>(a: seq<B>, f: T -> seq<B>, s: seq<T>, key: B -> Key)
    ensures KeysApart(a, Flatten(Map(f, s)), key) <==> forall j | 0 <= j < |s| :: KeysApart(a, f(s[j]), key)
  {
    forall y
      ensures y in Flatten(Map(f, s)) <==> exists j | 0 <= j < |s| :: y in f(s[j])
    {
      FlattenMembers(f, s, y);
    }
  }

  lemma {:induction false} RestUnique<T, B(!new)>(f: T -> seq<B>, s: seq<T>, key: B -> Key)
    requires s != []
    ensures (forall i | 0 <= i < |s| :: UniqueKeys(f(s[i]), key))
       <==> UniqueKeys(f(s[0]), key) && forall i | 0 <= i < |s[1..]| :: UniqueKeys(f(s[1..][i]), key)
  {
    assert forall i | 0 < i < |s| :: s[i] == s[1..][i - 1];
  }

  // No key is repeated in the whole exactly when none is within a part or between parts.
  lemma {:induction false} UniqueFlatten<T, B(!new)>(f: T -> seq<B>, s: seq<T>, key: B -> Key)
    ensures UniqueKeys(Flatten(Map(f, s)), key)
       <==> (forall i | 0 <= i < |s| :: UniqueKeys(f(s[i]), key)) && PartsApart(f, s, key)
  {
    if s != [] {
      UniqueFlatten(f, s[1..], key);
      assert Map(f, s)[1..] == Map(f, s[1..]);
      UniqueConcatenation(f(s[0]), Flatten(Map(f, s[1..])), key);
      ApartFromAll(f(s[0]), f, s[1..], key);
      RestApart(f, s, key);
      RestUnique(f, s, key);
    }
  }
}
