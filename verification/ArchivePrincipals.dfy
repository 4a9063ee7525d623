// The table of principals that an archive declares (`declared_archive_principals` and `principal_ref`
// in crates/marginalis-archive/src/archive.rs).
module ArchivePrincipals {
  import opened Options
  import opened Domain
  import opened Sorting
  import opened Principals
  import opened Archives
  import opened ArchiveContents

  // ---------------------------------------------------------------- distinct identities

  lemma {:induction false} DistinctMeansOnce(s: seq<Identity>)
    ensures DistinctIdentities(s) <==> forall x :: multiset(s)[x] <= 1
  {
    if s != [] {
      var rest := s[..|s| - 1];
      var last := s[|s| - 1];
      assert s == rest + [last];
      DistinctMeansOnce(rest);
      if DistinctIdentities(s) {
        assert last !in rest;
        assert forall x :: multiset(s)[x] == multiset(rest)[x] + if x == last then 1 else 0;
      } else {
        RepeatedTwice(s);
      }
    }
  }

  lemma {:induction false} RepeatedTwice(s: seq<Identity>)
    requires !DistinctIdentities(s)
    ensures exists x :: multiset(s)[x] >= 2
  {
    var i, j :| 0 <= i < j < |s| && s[i] == s[j];
    assert s == s[..j] + [s[j]] + s[j + 1..];
    assert s[i] in s[..j];
    assert multiset(s)[s[j]] >= 2;
  }

  lemma {:induction false} DistinctPermutes(a: seq<Identity>, b: seq<Identity>)
    requires multiset(a) == multiset(b) && DistinctIdentities(a)
    ensures DistinctIdentities(b)
  {
    DistinctMeansOnce(a);
    DistinctMeansOnce(b);
  }

  lemma {:induction false} DistinctParts(a: seq<Identity>, b: seq<Identity>)
    requires DistinctIdentities(a + b)
    ensures DistinctIdentities(a) && DistinctIdentities(b)
    ensures forall x | x in a :: x !in b
  {
    var whole := a + b;
    forall i, j | 0 <= i < j < |a|
      ensures a[i] != a[j]
    {
      assert whole[i] == a[i] && whole[j] == a[j];
    }
    forall i, j | 0 <= i < j < |b|
      ensures b[i] != b[j]
    {
      assert whole[|a| + i] == b[i] && whole[|a| + j] == b[j];
    }
    forall x | x in a
      ensures x !in b
    {
      var i :| 0 <= i < |a| && a[i] == x;
      forall j | 0 <= j < |b|
        ensures b[j] != x
      {
        assert whole[i] != whole[|a| + j];
      }
    }
  }

  // ---------------------------------------------------------------- identities of all entries

  lemma {:induction false} IdentitiesOfInserted(x: ArchivePrincipal, s: seq<ArchivePrincipal>)
    ensures multiset(AllIdentities(Insert(x, s, PrincipalKey))) == multiset(IdentitiesOf(x))
            + multiset(AllIdentities(s))
  {
    var inserted := Insert(x, s, PrincipalKey);
    if s == [] {
      assert inserted[1..] == [];
    } else if KeyLe(PrincipalKey(x), PrincipalKey(s[0])) {
      assert inserted[1..] == s;
    } else {
      assert inserted[1..] == Insert(x, s[1..], PrincipalKey);
      IdentitiesOfInserted(x, s[1..]);
    }
  }

  lemma {:induction false} IdentitiesOfSorted(s: seq<ArchivePrincipal>)
    ensures multiset(AllIdentities(Sort(s, PrincipalKey))) == multiset(AllIdentities(s))
  {
    if s != [] {
      IdentitiesOfSorted(s[1..]);
      IdentitiesOfInserted(s[0], Sort(s[1..], PrincipalKey));
    }
  }

  lemma {:induction false} IdentitiesWithSortedAliases(s: seq<ArchivePrincipal>)
    ensures multiset(AllIdentities(Map(SortAliases, s))) == multiset(AllIdentities(s))
  {
    if s != [] {
      IdentitiesWithSortedAliases(s[1..]);
      SortPermutes(s[0].aliases, IdentityKey);
      assert Map(SortAliases, s)[1..] == Map(SortAliases, s[1..]);
      assert multiset(IdentitiesOf(SortAliases(s[0]))) == multiset(IdentitiesOf(s[0]));
    }
  }

  lemma {:induction false} IdentitiesAreCollected(s: seq<ArchivePrincipal>, i: nat, x: Identity)
    requires i < |s| && x in IdentitiesOf(s[i])
    ensures x in AllIdentities(s)
  {
    if i > 0 {
      IdentitiesAreCollected(s[1..], i - 1, x);
    }
  }

  // Entries with distinct identities overall share none.
  lemma {:induction false} EntriesAreDisjoint(s: seq<ArchivePrincipal>, i: nat, j: nat)
    requires DistinctIdentities(AllIdentities(s)) && i < j < |s|
    ensures DistinctIdentities(IdentitiesOf(s[i])) && DistinctIdentities(IdentitiesOf(s[j]))
    ensures forall x | x in IdentitiesOf(s[i]) :: x !in IdentitiesOf(s[j])
  {
    DistinctParts(IdentitiesOf(s[0]), AllIdentities(s[1..]));
    if i > 0 {
      EntriesAreDisjoint(s[1..], i - 1, j - 1);
    } else {
      EntryIsDistinct(s[1..], j - 1);
      forall x | x in IdentitiesOf(s[0])
        ensures x !in IdentitiesOf(s[j])
      {
        if x in IdentitiesOf(s[j]) {
          IdentitiesAreCollected(s[1..], j - 1, x);
        }
      }
    }
  }

  lemma {:induction false} EntryIsDistinct(s: seq<ArchivePrincipal>, i: nat)
    requires DistinctIdentities(AllIdentities(s)) && i < |s|
    ensures DistinctIdentities(IdentitiesOf(s[i]))
  {
    DistinctParts(IdentitiesOf(s[0]), AllIdentities(s[1..]));
    if i > 0 {
      EntryIsDistinct(s[1..], i - 1);
    }
  }

  // ---------------------------------------------------------------- the numbered table

  lemma {:induction false} NumberedIsDeclared(entries: seq<ArchivePrincipal>)
    requires DistinctIdentities(AllIdentities(entries))
    ensures Declared(Numbered(entries))
  {
    var table := Numbered(entries);
    forall i | 0 <= i < |table|
      ensures ValidPrincipal(table[i]) && PrincipalOk(table, i)
    {
      EntryIsDistinct(entries, i);
      assert IdentitiesOf(entries[i])[0] == entries[i].primary;
      forall j | 0 <= j < i
        ensures !Shares(table[i], table[j])
      {
        EntriesAreDisjoint(entries, j, i);
      }
    }
  }

  // An accepted table declares consistent principals, in the order of their primary identities.
  lemma {:induction false} DeclaredPrincipalsAreDeclared(env: Environment, entries: seq<ArchivePrincipal>)
    requires DeclaredPrincipals(env, entries).Some?
    ensures Declared(DeclaredPrincipals(env, entries).value)
    ensures DistinctIdentities(AllIdentities(Sort(entries, PrincipalKey)))
  {
    IdentitiesOfSorted(entries);
    DistinctPermutes(AllIdentities(entries), AllIdentities(Sort(entries, PrincipalKey)));
    NumberedIsDeclared(Sort(entries, PrincipalKey));
  }

  lemma {:induction false} FindPrimaryFinds(principals: seq<Principal>, identity: Identity) returns (i: nat)
    ensures FindPrimary(principals, identity).Some? ==>
              && i < |principals| && principals[i].primary == identity
              && FindPrimary(principals, identity).value == PrincipalRef(principals[i].id, identity)
    ensures FindPrimary(principals, identity).None?
            ==> forall j | 0 <= j < |principals| :: principals[j].primary != identity
  {
    i := 0;
    if principals != [] && principals[0].primary != identity {
      var k := FindPrimaryFinds(principals[1..], identity);
      i := k + 1;
      if FindPrimary(principals, identity).None? {
        forall j | 0 <= j < |principals|
          ensures principals[j].primary != identity
        {
          if j > 0 {
            assert principals[1..][j - 1] == principals[j];
          }
        }
      }
    }
  }

  // A reference that is found carries the identity that was looked up, and resolves.
  lemma {:induction false} RefResolves(env: Environment, principals: seq<Principal>, identity: Identity)
    requires Declared(principals) && RefOf(env, principals, identity).Some?
    ensures RefOf(env, principals, identity).value.primary == identity
    ensures Resolves(principals, RefOf(env, principals, identity).value)
  {
    var i := FindPrimaryFinds(principals, identity);
    FindAt(principals, i);
  }

  // Two tables that agree on IDs and primary identities answer alike.
  predicate SameTable(p: seq<Principal>, q: seq<Principal>) {
    |p| == |q| && forall i | 0 <= i < |p| :: p[i].id == q[i].id && p[i].primary == q[i].primary
  }

  lemma {:induction false} SameTableSameRefs(env: Environment, p: seq<Principal>, q: seq<Principal>, identity: Identity)
    requires SameTable(p, q)
    ensures RefOf(env, p, identity) == RefOf(env, q, identity)
  {
    if p != [] {
      assert p[0].id == q[0].id && p[0].primary == q[0].primary;
      forall i | 0 <= i < |p[1..]|
        ensures p[1..][i].id == q[1..][i].id && p[1..][i].primary == q[1..][i].primary
      {
        assert p[1..][i] == p[i + 1] && q[1..][i] == q[i + 1];
      }
      SameTableSameRefs(env, p[1..], q[1..], identity);
    }
  }

  // ---------------------------------------------------------------- the loops

  datatype Table = Table(principals: seq<Principal>) | InvalidPrincipal(position: nat)

  // The entries before this one are valid and declare no identity twice.
  predicate PrefixOk(env: Environment, entries: seq<ArchivePrincipal>, n: nat)
    requires n <= |entries|
  {
    EntriesOk(env, entries[..n])
  }

  method DeclareTable(env: Environment, entries: seq<ArchivePrincipal>) returns (r: Table)
    ensures r.Table? ==> DeclaredPrincipals(env, entries) == Some(r.principals)
    ensures r.InvalidPrincipal? ==>
              && 1 <= r.position <= |entries| && DeclaredPrincipals(env, entries).None?
              && PrefixOk(env, entries, r.position - 1) && !PrefixOk(env, entries, r.position)
  {
    var seen: set<Identity> := {};
    var index := 0;
    assert entries[..0] == [];
    while index < |entries|
      invariant index <= |entries| && PrefixOk(env, entries, index)
      invariant forall x :: x in seen <==> x in AllIdentities(entries[..index])
    {
      var ok, more := DeclareEntry(env, entries[index], seen);
      PrefixGrows(env, entries, index);
      if !ok {
        PrefixesFail(env, entries, index + 1, |entries|);
        assert entries[..|entries|] == entries;
        return InvalidPrincipal(index + 1);
      }
      seen := more;
      index := index + 1;
    }
    assert entries[..|entries|] == entries;
    r := Table(Numbered(Sort(entries, PrincipalKey)));
  }

  method DeclareEntry(env: Environment, entry: ArchivePrincipal, taken: set<Identity>)
    returns (ok: bool, seen: set<Identity>)
    ensures ok
       <==> && EntryOk(env, entry) && DistinctIdentities(IdentitiesOf(entry))
            && forall x | x in IdentitiesOf(entry) :: x !in taken
    ensures ok ==> forall x :: x in seen <==> x in taken || x in IdentitiesOf(entry)
  {
    var identities := IdentitiesOf(entry);
    seen := taken;
    for i := 0 to |identities|
      invariant seen == taken + set j | 0 <= j < i :: identities[j]
      invariant forall j | 0 <= j < i :: env.validIdentity(identities[j]) && identities[j] !in taken
      invariant forall j, k | 0 <= j < k < i :: identities[j] != identities[k]
    {
      if !env.validIdentity(identities[i]) || identities[i] in seen {
        return false, seen;
      }
      seen := seen + {identities[i]};
    }
    ok := true;
  }

  lemma {:induction false} AllIdentitiesSplit(a: seq<ArchivePrincipal>, b: seq<ArchivePrincipal>)
    ensures AllIdentities(a + b) == AllIdentities(a) + AllIdentities(b)
  {
    if a == [] {
      assert a + b == b;
    } else {
      assert (a + b)[1..] == a[1..] + b;
      AllIdentitiesSplit(a[1..], b);
    }
  }

  lemma {:induction false} PrefixGrows(env: Environment, entries: seq<ArchivePrincipal>, n: nat)
    requires n < |entries| && PrefixOk(env, entries, n)
    ensures AllIdentities(entries[..n + 1]) == AllIdentities(entries[..n]) + IdentitiesOf(entries[n])
    ensures PrefixOk(env, entries, n + 1)
       <==> && EntryOk(env, entries[n]) && DistinctIdentities(IdentitiesOf(entries[n]))
            && forall x | x in IdentitiesOf(entries[n]) :: x !in AllIdentities(entries[..n])
  {
    var before, own := AllIdentities(entries[..n]), IdentitiesOf(entries[n]);
    assert entries[..n + 1] == entries[..n] + [entries[n]];
    AllIdentitiesSplit(entries[..n], [entries[n]]);
    assert AllIdentities([entries[n]]) == own by {
      assert [entries[n]][1..] == [];
      assert own + [] == own;
    }
    DistinctJoins(before, own);
    ValidGrows(env, entries[..n], entries[n]);
  }

  lemma {:induction false} DistinctJoins(a: seq<Identity>, b: seq<Identity>)
    ensures DistinctIdentities(a + b)
       <==> DistinctIdentities(a) && DistinctIdentities(b) && forall x | x in b :: x !in a
  {
    if DistinctIdentities(a + b) {
      DistinctParts(a, b);
    } else if DistinctIdentities(a) && DistinctIdentities(b) {
      var whole := a + b;
      var i, j :| 0 <= i < j < |whole| && whole[i] == whole[j];
      assert i < |a| <= j && b[j - |a|] in b;
    }
  }

  lemma {:induction false} ValidGrows(env: Environment, entries: seq<ArchivePrincipal>, entry: ArchivePrincipal)
    ensures EntriesValid(env, entries + [entry]) <==> EntriesValid(env, entries) && EntryOk(env, entry)
  {
    var longer := entries + [entry];
    assert longer[|entries|] == entry;
    assert forall i | 0 <= i < |entries| :: longer[i] == entries[i];
  }

  lemma {:induction false} PrefixesFail(env: Environment, entries: seq<ArchivePrincipal>, n: nat, m: nat)
    requires n <= m <= |entries| && !PrefixOk(env, entries, n)
    ensures !PrefixOk(env, entries, m)
    decreases m - n
  {
    if n < m {
      PrefixesFail(env, entries, n, m - 1);
      assert entries[..m] == entries[..m - 1] + [entries[m - 1]];
      AllIdentitiesSplit(entries[..m - 1], [entries[m - 1]]);
      DistinctJoins(AllIdentities(entries[..m - 1]), AllIdentities([entries[m - 1]]));
      ValidGrows(env, entries[..m - 1], entries[m - 1]);
    }
  }
}
