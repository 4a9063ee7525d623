// Stable sorting by key, with the orders that Rust derives for strings, integers and tuples of them.
module Sorting {
  import opened Sequences

  // A key is a tuple of components; a component is a string (its code points, whose order is the
  // byte order of UTF-8) or a number.
  type Key = seq<seq<int>>

  function Points(text: string): seq<int> {
    seq(|text|, i requires 0 <= i < |text| => text[i] as int)
  }

  lemma {:induction false} PointsInjective(a: string, b: string)
    requires Points(a) == Points(b)
    ensures a == b
  {
    forall i | 0 <= i < |a|
      ensures a[i] == b[i]
    {
      assert Points(a)[i] == Points(b)[i];
    }
  }

  predicate ComponentLe(a: seq<int>, b: seq<int>) {
    a == [] || (b != [] && (a[0] < b[0] || (a[0] == b[0] && ComponentLe(a[1..], b[1..]))))
  }

  predicate KeyLe(a: Key, b: Key) {
    a == [] || (b != [] && if a[0] == b[0] then KeyLe(a[1..], b[1..]) else ComponentLe(a[0], b[0]))
  }

  lemma {:induction false} ComponentLeTotal(a: seq<int>, b: seq<int>)
    ensures ComponentLe(a, b) || ComponentLe(b, a)
    ensures ComponentLe(a, b) && ComponentLe(b, a) ==> a == b
  {
    if a != [] && b != [] && a[0] == b[0] {
      ComponentLeTotal(a[1..], b[1..]);
      assert a == [a[0]] + a[1..] && b == [b[0]] + b[1..];
    }
  }

  lemma {:induction false} ComponentLeTransitive(a: seq<int>, b: seq<int>, c: seq<int>)
    requires ComponentLe(a, b) && ComponentLe(b, c)
    ensures ComponentLe(a, c)
  {
    if a != [] && a[0] == b[0] == c[0] {
      ComponentLeTransitive(a[1..], b[1..], c[1..]);
    }
  }

  lemma {:induction false} KeyLeTotal(a: Key, b: Key)
    ensures KeyLe(a, b) || KeyLe(b, a)
    ensures KeyLe(a, b) && KeyLe(b, a) ==> a == b
  {
    if a != [] && b != [] {
      ComponentLeTotal(a[0], b[0]);
      if a[0] == b[0] {
        KeyLeTotal(a[1..], b[1..]);
        assert a == [a[0]] + a[1..] && b == [b[0]] + b[1..];
      }
    }
  }

  lemma {:induction false} KeyLeTransitive(a: Key, b: Key, c: Key)
    requires KeyLe(a, b) && KeyLe(b, c)
    ensures KeyLe(a, c)
  {
    if a != [] {
      if a[0] == b[0] == c[0] {
        KeyLeTransitive(a[1..], b[1..], c[1..]);
      } else if a[0] != b[0] && b[0] != c[0] {
        ComponentLeTransitive(a[0], b[0], c[0]);
        ComponentLeTotal(a[0], b[0]);
      }
    }
  }

  // ---------------------------------------------------------------- sorting

  // Inserts x before the first element whose key is not smaller.
  function Insert<T>(x: T, s: seq<T>, key: T -> Key): seq<T> {
    if s == [] then [x]
    else if KeyLe(key(x), key(s[0])) then [x] + s
    else [s[0]] + Insert(x, s[1..], key)
  }

  // Stable sort.
  function Sort<T>(s: seq<T>, key: T -> Key): seq<T> {
    if s == [] then [] else Insert(s[0], Sort(s[1..], key), key)
  }

  predicate AllAbove<T>(bound: Key, s: seq<T>, key: T -> Key) {
    forall i | 0 <= i < |s| :: KeyLe(bound, key(s[i]))
  }

  predicate IsSorted<T>(s: seq<T>, key: T -> Key) {
    s == [] || (AllAbove(key(s[0]), s[1..], key) && IsSorted(s[1..], key))
  }

  lemma {:induction false} AllAboveLower<T>(low: Key, bound: Key, s: seq<T>, key: T -> Key)
    requires KeyLe(low, bound) && AllAbove(bound, s, key)
    ensures AllAbove(low, s, key)
  {
    forall i | 0 <= i < |s|
      ensures KeyLe(low, key(s[i]))
    {
      KeyLeTransitive(low, bound, key(s[i]));
    }
  }

  lemma {:induction false} InsertPermutes<T>(x: T, s: seq<T>, key: T -> Key)
    ensures multiset(Insert(x, s, key)) == multiset([x]) + multiset(s)
  {
    if s != [] {
      assert s == [s[0]] + s[1..];
      if !KeyLe(key(x), key(s[0])) {
        InsertPermutes(x, s[1..], key);
      }
    }
  }

  lemma {:induction false} SortPermutes<T>(s: seq<T>, key: T -> Key)
    ensures multiset(Sort(s, key)) == multiset(s)
    ensures |Sort(s, key)| == |s|
  {
    if s != [] {
      assert s == [s[0]] + s[1..];
      SortPermutes(s[1..], key);
      InsertPermutes(s[0], Sort(s[1..], key), key);
      assert |multiset(Sort(s, key))| == |multiset(s)|;
    }
  }

  lemma {:induction false} PermutationMembers<T>(a: seq<T>, b: seq<T>)
    requires multiset(a) == multiset(b)
    ensures |a| == |b|
    ensures forall x :: x in a <==> x in b
  {
    assert |multiset(a)| == |multiset(b)|;
    forall x
      ensures x in a <==> x in b
    {
      assert x in a <==> x in multiset(a);
      assert x in b <==> x in multiset(b);
    }
  }

  lemma {:induction false} SortMembers<T>(s: seq<T>, key: T -> Key)
    ensures forall x :: x in Sort(s, key) <==> x in s
  {
    SortPermutes(s, key);
    PermutationMembers(Sort(s, key), s);
  }

  lemma {:induction false} InsertSorts<T>(x: T, s: seq<T>, key: T -> Key)
    requires IsSorted(s, key)
    ensures IsSorted(Insert(x, s, key), key)
    ensures forall bound | AllAbove(bound, s, key) && KeyLe(bound, key(x)) :: AllAbove(bound, Insert(x, s, key), key)
  {
    if s != [] {
      KeyLeTotal(key(x), key(s[0]));
      if KeyLe(key(x), key(s[0])) {
        AllAboveLower(key(x), key(s[0]), s[1..], key);
        assert ([x] + s)[1..] == s;
      } else {
        InsertSorts(x, s[1..], key);
        assert ([s[0]] + Insert(x, s[1..], key))[1..] == Insert(x, s[1..], key);
        forall bound | AllAbove(bound, s, key) && KeyLe(bound, key(x))
          ensures AllAbove(bound, Insert(x, s, key), key)
        {
          assert AllAbove(bound, s[1..], key);
        }
      }
    }
  }

  lemma {:induction false} SortSorts<T>(s: seq<T>, key: T -> Key)
    ensures IsSorted(Sort(s, key), key)
  {
    if s != [] {
      SortSorts(s[1..], key);
      InsertSorts(s[0], Sort(s[1..], key), key);
    }
  }

  // Sorting what is sorted changes nothing.
  lemma {:induction false} SortOfSorted<T>(s: seq<T>, key: T -> Key)
    requires IsSorted(s, key)
    ensures Sort(s, key) == s
  {
    if s != [] {
      SortOfSorted(s[1..], key);
      if s[1..] != [] {
        assert KeyLe(key(s[0]), key(s[1..][0]));
      }
      assert s == [s[0]] + s[1..];
    }
  }

  lemma {:induction false} SortIdempotent<T>(s: seq<T>, key: T -> Key)
    ensures Sort(Sort(s, key), key) == Sort(s, key)
  {
    SortSorts(s, key);
    SortOfSorted(Sort(s, key), key);
  }

  // ---------------------------------------------------------------- uniqueness

  // No two elements have the same key.
  ghost predicate UniqueKeys<T(!new)>(s: seq<T>, key: T -> Key) {
    forall i, j | 0 <= i < j < |s| :: key(s[i]) != key(s[j])
  }

  // Elements of the sequence are told apart by their keys.
  ghost predicate KeysIdentify<T(!new)>(s: seq<T>, key: T -> Key) {
    forall x, y | x in s && y in s && key(x) == key(y) :: x == y
  }

  lemma {:induction false} UniqueKeysIdentify<T(!new)>(s: seq<T>, key: T -> Key)
    requires UniqueKeys(s, key)
    ensures KeysIdentify(s, key)
  {
  }

  lemma {:induction false} RestOfPermutation<T>(a: seq<T>, b: seq<T>)
    requires a != [] && b != [] && a[0] == b[0] && multiset(a) == multiset(b)
    ensures multiset(a[1..]) == multiset(b[1..])
  {
    assert a == [a[0]] + a[1..] && b == [b[0]] + b[1..];
    assert multiset(a[1..]) == multiset(a) - multiset([a[0]]);
    assert multiset(b[1..]) == multiset(b) - multiset([b[0]]);
  }

  // A sorted sequence is determined by its elements when their keys identify them.
  lemma {:induction false} SortedPermutationsAreEqual<T(!new)>(a: seq<T>, b: seq<T>, key: T -> Key)
    requires IsSorted(a, key) && IsSorted(b, key)
    requires multiset(a) == multiset(b) && KeysIdentify(a, key)
    ensures a == b
  {
    PermutationMembers(a, b);
    if a != [] {
      FirstIsLeast(a, b[0], key);
      FirstIsLeast(b, a[0], key);
      KeyLeTotal(key(a[0]), key(b[0]));
      assert a[0] in a && b[0] in a;
      assert a[0] == b[0];
      assert a == [a[0]] + a[1..] && b == [b[0]] + b[1..];
      RestOfPermutation(a, b);
      assert forall x | x in a[1..] :: x in a;
      SortedPermutationsAreEqual(a[1..], b[1..], key);
    }
  }

  lemma {:induction false} FirstIsLeast<T>(s: seq<T>, x: T, key: T -> Key)
    requires IsSorted(s, key) && x in s
    ensures KeyLe(key(s[0]), key(x))
  {
    KeyLeTotal(key(s[0]), key(s[0]));
    if x != s[0] {
      var i :| 0 <= i < |s| && s[i] == x;
      assert s[1..][i - 1] == x;
    }
  }

  // Two orders of the same elements are sorted alike when the keys identify the elements.
  lemma {:induction false} SortOfPermutation<T(!new)>(a: seq<T>, b: seq<T>, key: T -> Key)
    requires multiset(a) == multiset(b) && KeysIdentify(a, key)
    ensures Sort(a, key) == Sort(b, key)
  {
    SortSorts(a, key);
    SortSorts(b, key);
    SortPermutes(a, key);
    SortPermutes(b, key);
    SortMembers(a, key);
    SortedPermutationsAreEqual(Sort(a, key), Sort(b, key), key);
  }

  // ---------------------------------------------------------------- mapping and filtering

  function Map<A, B>(f: A -> B, s: seq<A>): (r: seq<B>)
    ensures |r| == |s|
    ensures forall i | 0 <= i < |s| :: r[i] == f(s[i])
  {
    if s == [] then [] else [f(s[0])] + Map(f, s[1..])
  }

  lemma {:induction false} MapIndex<A, B>(f: A -> B, s: seq<A>, y: B) returns (i: nat)
    requires y in Map(f, s)
    ensures i < |s| && f(s[i]) == y
  {
    var m := Map(f, s);
    var j :| 0 <= j < |m| && m[j] == y;
    i := j;
  }

  function Filter<A>(p: A -> bool, s: seq<A>): seq<A> {
    if s == [] then [] else if p(s[0]) then [s[0]] + Filter(p, s[1..]) else Filter(p, s[1..])
  }

  lemma {:induction false} FilterMembers<A>(p: A -> bool, s: seq<A>)
    ensures forall x | x in Filter(p, s) :: x in s && p(x)
    ensures forall x | x in s && p(x) :: x in Filter(p, s)
  {
    if s != [] {
      FilterMembers(p, s[1..]);
      forall x | x in s && p(x)
        ensures x in Filter(p, s)
      {
        if x != s[0] {
          assert x in s[1..];
        }
      }
    }
  }

  // Vec::dedup: drops what equals its predecessor.
  function Dedup<A(==)>(s: seq<A>): seq<A> {
    if |s| <= 1 then s
    else if s[0] == s[1] then Dedup(s[1..])
    else [s[0]] + Dedup(s[1..])
  }

  lemma {:induction false} DedupMembers<A>(s: seq<A>)
    ensures forall x :: x in Dedup(s) <==> x in s
  {
    if |s| > 1 {
      DedupMembers(s[1..]);
      assert s == [s[0]] + s[1..];
      assert s[1] in s[1..];
    }
  }

  lemma {:induction false} FilterCons<A>(p: A -> bool, x: A, s: seq<A>)
    ensures Filter(p, [x] + s) == if p(x) then [x] + Filter(p, s) else Filter(p, s)
  {
    assert ([x] + s)[1..] == s;
  }

  lemma {:induction false} FilterSplits<A>(p: A -> bool, a: seq<A>, b: seq<A>)
    ensures Filter(p, a + b) == Filter(p, a) + Filter(p, b)
  {
    if a == [] {
      assert a + b == b;
    } else {
      var rest := a[1..];
      assert a + b == [a[0]] + (rest + b) && a == [a[0]] + rest;
      FilterSplits(p, rest, b);
      FilterCons(p, a[0], rest + b);
      FilterCons(p, a[0], rest);
      Assoc3([a[0]], Filter(p, rest), Filter(p, b));
    }
  }

  lemma {:induction false} FilterAppend<A>(p: A -> bool, s: seq<A>, x: A)
    ensures Filter(p, s + [x]) == Filter(p, s) + if p(x) then [x] else []
  {
    FilterSplits(p, s, [x]);
    assert [x] + [] == [x];
    FilterCons(p, x, []);
  }

  function CountIf<A>(p: A -> bool, s: seq<A>): nat {
    if s == [] then 0 else CountIf(p, s[..|s| - 1]) + if p(s[|s| - 1]) then 1 else 0
  }

  // Exactly the elements with the property are kept, as often as they are given, each at the place that the
  // number of such elements before it gives.
  lemma {:induction false} FilterPlaces<A>(p: A -> bool, s: seq<A>)
    ensures |Filter(p, s)| == CountIf(p, s)
    ensures forall i | 0 <= i < |s| && p(s[i]) ::
              CountIf(p, s[..i]) < CountIf(p, s) && Filter(p, s)[CountIf(p, s[..i])] == s[i]
    ensures forall x :: multiset(Filter(p, s))[x] == if p(x) then multiset(s)[x] else 0
  {
    if s != [] {
      var last := |s| - 1;
      var front, x := s[..last], s[last];
      assert s == front + [x];
      FilterPlaces(p, front);
      FilterAppend(p, front, x);
      forall i | 0 <= i < |s| && p(s[i])
        ensures CountIf(p, s[..i]) < CountIf(p, s) && Filter(p, s)[CountIf(p, s[..i])] == s[i]
      {
        if i < last {
          assert front[..i] == s[..i] && front[i] == s[i];
        }
      }
    }
  }

  lemma {:induction false} InsertMaps<A(!new), B>(f: A -> B, x: A, s: seq<A>, keyA: A -> Key, keyB: B -> Key)
    requires forall y :: keyB(f(y)) == keyA(y)
    ensures Map(f, Insert(x, s, keyA)) == Insert(f(x), Map(f, s), keyB)
  {
    if s != [] {
      if KeyLe(keyA(x), keyA(s[0])) {
        assert ([x] + s)[1..] == s;
      } else {
        InsertMaps(f, x, s[1..], keyA, keyB);
        assert ([s[0]] + Insert(x, s[1..], keyA))[1..] == Insert(x, s[1..], keyA);
      }
    }
  }

  // Sorting commutes with a map that keeps the keys.
  lemma {:induction false} SortMaps<A(!new), B>(f: A -> B, s: seq<A>, keyA: A -> Key, keyB: B -> Key)
    requires forall y :: keyB(f(y)) == keyA(y)
    ensures Map(f, Sort(s, keyA)) == Sort(Map(f, s), keyB)
  {
    if s != [] {
      SortMaps(f, s[1..], keyA, keyB);
      InsertMaps(f, s[0], Sort(s[1..], keyA), keyA, keyB);
    }
  }

  lemma {:induction false} InsertFilters<A>(p: A -> bool, x: A, s: seq<A>, key: A -> Key)
    requires IsSorted(s, key)
    ensures Filter(p, Insert(x, s, key)) == if p(x) then Insert(x, Filter(p, s), key) else Filter(p, s)
  {
    if s == [] {
      assert Insert(x, s, key) == [x] && [x][1..] == [];
    } else if KeyLe(key(x), key(s[0])) {
      FilterCons(p, x, s);
      FilterMembers(p, s);
      if p(x) && Filter(p, s) != [] {
        var y := Filter(p, s)[0];
        assert y in Filter(p, s) && y in s;
        FirstIsLeast(s, y, key);
        KeyLeTransitive(key(x), key(s[0]), key(y));
      }
    } else {
      InsertFilters(p, x, s[1..], key);
      FilterCons(p, s[0], Insert(x, s[1..], key));
    }
  }

  // Sorting commutes with filtering.
  lemma {:induction false} SortFilters<A>(p: A -> bool, s: seq<A>, key: A -> Key)
    ensures Filter(p, Sort(s, key)) == Sort(Filter(p, s), key)
  {
    if s != [] {
      SortFilters(p, s[1..], key);
      SortSorts(s[1..], key);
      InsertFilters(p, s[0], Sort(s[1..], key), key);
    }
  }

  // ---------------------------------------------------------------- uniqueness of keys and sorting

  lemma {:induction false} FilterNone<A>(p: A -> bool, s: seq<A>)
    requires forall i | 0 <= i < |s| :: !p(s[i])
    ensures Filter(p, s) == []
  {
    if s != [] {
      FilterNone(p, s[1..]);
    }
  }

  lemma {:induction false} FilterAll<A>(p: A -> bool, s: seq<A>)
    requires forall i | 0 <= i < |s| :: p(s[i])
    ensures Filter(p, s) == s
  {
    if s != [] {
      FilterAll(p, s[1..]);
      assert s == [s[0]] + s[1..];
    }
  }

  lemma {:induction false} FilterOne<A>(p: A -> bool, s: seq<A>)
    requires forall i, j | 0 <= i < j < |s| :: !(p(s[i]) && p(s[j]))
    ensures |Filter(p, s)| <= 1
  {
    if s != [] {
      var rest := s[1..];
      if p(s[0]) {
        forall j | 0 <= j < |rest|
          ensures !p(rest[j])
        {
          assert rest[j] == s[j + 1];
        }
        FilterNone(p, rest);
      } else {
        assert forall i | 0 <= i < |rest| :: rest[i] == s[i + 1];
        FilterOne(p, rest);
      }
    }
  }

  lemma {:induction false} FilterTwo<A>(p: A -> bool, s: seq<A>, i: nat, j: nat)
    requires i < j < |s| && p(s[i]) && p(s[j])
    ensures |Filter(p, s)| >= 2
  {
    var a, b := s[..j], s[j..];
    assert s == a + b;
    FilterSplits(p, a, b);
    FilterMembers(p, a);
    assert a[i] in Filter(p, a);
    assert b[0] == s[j];
  }

  function HasKey<T>(key: T -> Key, k: Key): T -> bool {
    (x: T) => key(x) == k
  }

  // Sorting neither makes nor removes repetitions of keys.
  lemma {:induction false} UniqueKeysOfSort<T(!new)>(s: seq<T>, key: T -> Key)
    ensures UniqueKeys(Sort(s, key), key) <==> UniqueKeys(s, key)
  {
    var sorted := Sort(s, key);
    if UniqueKeys(s, key) && !UniqueKeys(sorted, key) {
      KeysRepeatAlike(s, sorted, key);
    }
    if UniqueKeys(sorted, key) && !UniqueKeys(s, key) {
      KeysRepeatAlike(sorted, s, key);
    }
  }

  lemma {:induction false} KeysRepeatAlike<T(!new)>(a: seq<T>, b: seq<T>, key: T -> Key)
    requires a == Sort(b, key) || b == Sort(a, key)
    requires !UniqueKeys(b, key)
    ensures !UniqueKeys(a, key)
  {
    var i, j :| 0 <= i < j < |b| && key(b[i]) == key(b[j]);
    var p := HasKey(key, key(b[i]));
    FilterTwo(p, b, i, j);
    SortFilters(p, b, key);
    SortFilters(p, a, key);
    SortPermutes(Filter(p, b), key);
    SortPermutes(Filter(p, a), key);
    if UniqueKeys(a, key) {
      FilterOne(p, a);
    }
  }

  lemma {:induction false} MapPermutes<A, B>(f: A -> B, s: seq<A>, key: A -> Key)
    ensures multiset(Map(f, Sort(s, key))) == multiset(Map(f, s))
  {
    if s != [] {
      MapPermutes(f, s[1..], key);
      MapOfInserted(f, s[0], Sort(s[1..], key), key);
      assert Map(f, s) == [f(s[0])] + Map(f, s[1..]);
    }
  }

  lemma {:induction false} MapOfInserted<A, B>(f: A -> B, x: A, s: seq<A>, key: A -> Key)
    ensures multiset(Map(f, Insert(x, s, key))) == multiset{f(x)} + multiset(Map(f, s))
  {
    if s == [] {
      assert Map(f, [x]) == [f(x)];
    } else if KeyLe(key(x), key(s[0])) {
      assert Map(f, [x] + s) == [f(x)] + Map(f, s);
    } else {
      MapOfInserted(f, x, s[1..], key);
      var rest := Insert(x, s[1..], key);
      assert Map(f, [s[0]] + rest) == [f(s[0])] + Map(f, rest);
      assert Map(f, s) == [f(s[0])] + Map(f, s[1..]);
    }
  }

  // A permutation repeats no keys that the original does not repeat.
  lemma {:induction false} UniqueKeysPermute<T(!new)>(a: seq<T>, b: seq<T>, key: T -> Key)
    requires multiset(a) == multiset(b) && UniqueKeys(a, key)
    ensures UniqueKeys(b, key)
  {
    UniqueKeysIdentify(a, key);
    SortOfPermutation(a, b, key);
    UniqueKeysOfSort(a, key);
    UniqueKeysOfSort(b, key);
  }

  // ---------------------------------------------------------------- sorted sequences without repetition

  // Removing repetitions from a sorted sequence keeps it sorted and leaves each element once.
  lemma {:induction false} DedupOfSorted<T(!new)>(s: seq<T>, key: T -> Key)
    requires IsSorted(s, key) && KeysIdentify(s, key)
    ensures IsSorted(Dedup(s), key) && UniqueKeys(Dedup(s), key)
  {
    if |s| > 1 {
      var rest := s[1..];
      assert forall x | x in rest :: x in s;
      DedupOfSorted(rest, key);
      if s[0] != s[1] {
        var d := Dedup(rest);
        DedupMembers(rest);
        assert Dedup(s) == [s[0]] + d && Dedup(s)[1..] == d;
        forall i | 0 <= i < |d|
          ensures KeyLe(key(s[0]), key(d[i])) && key(s[0]) != key(d[i])
        {
          assert d[i] in rest;
          FirstIsLeast(s, d[i], key);
          FirstIsNotRepeated(s, d[i], key);
        }
      }
    }
  }

  lemma {:induction false} FirstIsNotRepeated<T(!new)>(s: seq<T>, x: T, key: T -> Key)
    requires IsSorted(s, key) && KeysIdentify(s, key) && |s| > 1 && s[0] != s[1] && x in s[1..]
    ensures key(s[0]) != key(x)
  {
    FirstIsLeast(s[1..], x, key);
    FirstIsLeast(s, s[1], key);
    KeyLeTotal(key(s[0]), key(s[1]));
    assert x in s && s[0] in s && s[1] in s;
  }

  // Two sorted sequences without repeated keys that have the same elements are equal.
  lemma {:induction false} SortedSetsAreEqual<T(!new)>(a: seq<T>, b: seq<T>, key: T -> Key)
    requires IsSorted(a, key) && IsSorted(b, key) && UniqueKeys(a, key) && UniqueKeys(b, key)
    requires forall x :: x in a <==> x in b
    ensures a == b
  {
    if a == [] {
      assert forall i | 0 <= i < |b| :: b[i] in a;
    } else {
      assert a[0] in a;
      assert b != [];
      assert b[0] in b;
      FirstIsLeast(a, b[0], key);
      FirstIsLeast(b, a[0], key);
      KeyLeTotal(key(a[0]), key(b[0]));
      UniqueKeysIdentify(a, key);
      assert a[0] == b[0];
      RestMembers(a, key);
      RestMembers(b, key);
      SortedSetsAreEqual(a[1..], b[1..], key);
      assert a == [a[0]] + a[1..] && b == [b[0]] + b[1..];
    }
  }

  lemma {:induction false} RestMembers<T(!new)>(a: seq<T>, key: T -> Key)
    requires a != [] && UniqueKeys(a, key)
    ensures UniqueKeys(a[1..], key)
    ensures forall x :: x in a[1..] <==> x in a && x != a[0]
  {
    assert a == [a[0]] + a[1..];
    forall i, j | 0 <= i < j < |a[1..]|
      ensures key(a[1..][i]) != key(a[1..][j])
    {
      assert a[1..][i] == a[i + 1] && a[1..][j] == a[j + 1];
    }
    forall i | 0 <= i < |a[1..]|
      ensures a[1..][i] != a[0]
    {
      assert key(a[0]) != key(a[i + 1]);
    }
  }
}
