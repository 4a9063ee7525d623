// Ordered sets of identities (`BTreeSet` and the keys of a `BTreeMap` in
// crates/marginalis-archive/src/documents.rs and crates/marginalis-archive/src/archive.rs).
module Identities {
  import opened Domain
  import opened Sorting
  import opened Archives

  // Each identity once, in order.
  function Once(s: seq<Identity>): seq<Identity> {
    Dedup(Sort(s, IdentityKey))
  }

  lemma {:induction false} OnceOf(s: seq<Identity>)
    ensures IsSorted(Once(s), IdentityKey) && UniqueKeys(Once(s), IdentityKey)
    ensures forall i :: i in Once(s) <==> i in s
  {
    var sorted := Sort(s, IdentityKey);
    SortSorts(s, IdentityKey);
    SortMembers(s, IdentityKey);
    forall x, y | x in sorted && y in sorted && IdentityKey(x) == IdentityKey(y)
      ensures x == y
    {
      IdentityKeysIdentify(x, y);
    }
    DedupOfSorted(sorted, IdentityKey);
    DedupMembers(sorted);
  }

  // It depends only on which identities there are.
  lemma {:induction false} OnceDependsOnMembers(s: seq<Identity>, t: seq<Identity>)
    requires forall i :: i in s <==> i in t
    ensures Once(s) == Once(t)
  {
    OnceOf(s);
    OnceOf(t);
    SortedSetsAreEqual(Once(s), Once(t), IdentityKey);
  }

  lemma {:induction false} OnceIsDistinct(s: seq<Identity>)
    ensures DistinctIdentities(Once(s))
  {
    OnceOf(s);
    var once := Once(s);
    forall i, j | 0 <= i < j < |once|
      ensures once[i] != once[j]
    {
      assert IdentityKey(once[i]) != IdentityKey(once[j]);
    }
  }

  // Going through an ordered set.
  method Ordered(identities: set<Identity>, ghost s: seq<Identity>) returns (ordered: seq<Identity>)
    requires forall i :: i in s <==> i in identities
    ensures ordered == Once(s)
  {
    var picked := Listed(identities);
    ordered := Sort(picked, IdentityKey);
    SortSorts(picked, IdentityKey);
    UniqueKeysOfSort(picked, IdentityKey);
    SortMembers(picked, IdentityKey);
    OnceOf(s);
    SortedSetsAreEqual(ordered, Once(s), IdentityKey);
  }

  method Listed(identities: set<Identity>) returns (listed: seq<Identity>)
    ensures UniqueKeys(listed, IdentityKey)
    ensures forall i :: i in listed <==> i in identities
  {
    listed := [];
    var rest := identities;
    while rest != {}
      invariant UniqueKeys(listed, IdentityKey)
      invariant forall i :: i in identities <==> i in rest || i in listed
      invariant forall i | i in listed :: i !in rest
      decreases |rest|
    {
      var next :| next in rest;
      forall i | 0 <= i < |listed|
        ensures IdentityKey(listed[i]) != IdentityKey(next)
      {
        assert listed[i] in listed;
        IdentityKeysIdentify(listed[i], next);
      }
      listed := listed + [next];
      rest := rest - {next};
    }
  }
}
