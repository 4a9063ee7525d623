// What the order of sort keys means for the fields that they are made of.
module TextOrder {
  import opened Sorting

  // The texts agree before k, and there the first ends or has the smaller character.
  predicate LessAt(a: string, b: string, k: nat) {
    && k <= |a| && k < |b|
    && (forall i | 0 <= i < k :: a[i] == b[i])
    && (k == |a| || a[k] < b[k])
  }

  // The order of Rust's strings.
  predicate TextLess(a: string, b: string) {
    exists k: nat | k <= |a| :: LessAt(a, b, k)
  }

  predicate TextLe(a: string, b: string) {
    a == b || TextLess(a, b)
  }

  // First by the first text, then by the second.
  predicate PairLe(a: (string, string), b: (string, string)) {
    TextLess(a.0, b.0) || (a.0 == b.0 && TextLe(a.1, b.1))
  }

  lemma {:induction false} PointsRest(a: string)
    requires a != []
    ensures Points(a) == [a[0] as int] + Points(a[1..])
    ensures Points(a)[1..] == Points(a[1..])
  {
  }

  lemma {:induction false} LessAtRest(a: string, b: string, k: nat)
    requires a != [] && b != [] && a[0] == b[0]
    ensures LessAt(a, b, k + 1) <==> LessAt(a[1..], b[1..], k)
  {
    if LessAt(a, b, k + 1) {
      assert forall i | 0 <= i < k :: a[1..][i] == a[i + 1] && b[1..][i] == b[i + 1];
    }
    if LessAt(a[1..], b[1..], k) {
      forall i | 0 <= i < k + 1
        ensures a[i] == b[i]
      {
        if i > 0 {
          assert a[1..][i - 1] == b[1..][i - 1];
        }
      }
    }
  }

  lemma {:induction false} TextLessRest(a: string, b: string)
    requires a != [] && b != [] && a[0] == b[0]
    ensures TextLess(a, b) <==> TextLess(a[1..], b[1..])
  {
    if TextLess(a, b) {
      var k: nat :| LessAt(a, b, k);
      LessAtRest(a, b, k - 1);
    }
    if TextLess(a[1..], b[1..]) {
      var k: nat :| LessAt(a[1..], b[1..], k);
      LessAtRest(a, b, k);
    }
  }

  lemma {:induction false} ComponentOrder(a: string, b: string)
    ensures ComponentLe(Points(a), Points(b)) <==> TextLe(a, b)
  {
    if a == [] {
      if b != [] {
        assert LessAt(a, b, 0);
      }
    } else if b != [] && a[0] == b[0] {
      PointsRest(a);
      PointsRest(b);
      ComponentOrder(a[1..], b[1..]);
      TextLessRest(a, b);
      assert a == [a[0]] + a[1..] && b == [b[0]] + b[1..];
    } else if b != [] {
      if a[0] < b[0] {
        assert LessAt(a, b, 0);
      }
    }
  }

  lemma {:induction false} OneTextKey(a: string, b: string)
    ensures KeyLe([Points(a)], [Points(b)]) <==> TextLe(a, b)
  {
    ComponentOrder(a, b);
    if a != b {
      PointsDiffer(a, b);
    }
  }

  lemma {:induction false} PointsDiffer(a: string, b: string)
    ensures Points(a) == Points(b) <==> a == b
  {
    if Points(a) == Points(b) {
      PointsInjective(a, b);
    }
  }

  // A key that begins with a text: by the text, and then by what follows.
  lemma {:induction false} TextFirst(a: string, restA: Key, b: string, restB: Key)
    ensures KeyLe([Points(a)] + restA, [Points(b)] + restB) <==> TextLess(a, b) || (a == b && KeyLe(restA, restB))
  {
    var x, y := [Points(a)] + restA, [Points(b)] + restB;
    assert x[1..] == restA && y[1..] == restB;
    PointsDiffer(a, b);
    ComponentOrder(a, b);
    if a == b {
      NotLessThanItself(a);
    }
  }

  lemma {:induction false} NotLessThanItself(a: string)
    ensures !TextLess(a, a)
  {
  }

  lemma {:induction false} PairKey(a: (string, string), b: (string, string))
    ensures KeyLe([Points(a.0), Points(a.1)], [Points(b.0), Points(b.1)]) <==> PairLe(a, b)
  {
    TextFirst(a.0, [Points(a.1)], b.0, [Points(b.1)]);
    OneTextKey(a.1, b.1);
    assert [Points(a.0), Points(a.1)] == [Points(a.0)] + [Points(a.1)];
    assert [Points(b.0), Points(b.1)] == [Points(b.0)] + [Points(b.1)];
  }

  lemma {:induction false} NumberKey(a: int, b: int)
    ensures KeyLe([[a]], [[b]]) <==> a <= b
  {
    assert [a][1..] == [] && [b][1..] == [];
    assert [[a]][1..] == [] && [[b]][1..] == [];
  }

  // Of two elements of what was sorted, the earlier has the smaller key.
  lemma {:induction false} SortedAt<T>(s: seq<T>, key: T -> Key, i: nat, j: nat)
    requires IsSorted(s, key) && i < j < |s|
    ensures KeyLe(key(s[i]), key(s[j]))
  {
    if i == 0 {
      assert s[1..][j - 1] == s[j];
    } else {
      SortedAt(s[1..], key, i - 1, j - 1);
    }
  }

  predicate InOrder<T>(s: seq<T>, le: (T, T) -> bool) {
    forall i, j | 0 <= i < j < |s| :: le(s[i], s[j])
  }

  lemma {:induction false} SortedInOrder<T(!new)>(s: seq<T>, key: T -> Key, le: (T, T) -> bool)
    requires IsSorted(s, key) && forall x, y | KeyLe(key(x), key(y)) :: le(x, y)
    ensures InOrder(s, le)
  {
    forall i, j | 0 <= i < j < |s|
      ensures le(s[i], s[j])
    {
      SortedAt(s, key, i, j);
    }
  }

  lemma {:induction false} SortInOrder<T(!new)>(s: seq<T>, key: T -> Key, le: (T, T) -> bool)
    requires forall x, y | KeyLe(key(x), key(y)) :: le(x, y)
    ensures InOrder(Sort(s, key), le)
  {
    SortSorts(s, key);
    SortedInOrder(Sort(s, key), key, le);
  }
}
