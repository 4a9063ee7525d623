// Which principals a snapshot declares (`include_referenced_principals`, `with_principals` and
// `validate_principal_references` in crates/marginalis-application/src/snapshot.rs).
module Principals {
  import opened Options
  import opened Domain

  predicate Shares(p: Principal, q: Principal) {
    exists i | 0 <= i < |p.identities| :: p.identities[i] in q.identities
  }

  // The check of one principal against those before it.
  predicate PrincipalOk(principals: seq<Principal>, i: nat)
    requires i < |principals|
  {
    && DistinctIdentities(principals[i].identities)
    && forall j | 0 <= j < i :: principals[j].id != principals[i].id && !Shares(principals[i], principals[j])
  }

  // IDs are unique and no identity belongs to two principals.
  predicate Declared(principals: seq<Principal>) {
    && (forall i | 0 <= i < |principals| :: ValidPrincipal(principals[i]))
    && forall i | 0 <= i < |principals| :: PrincipalOk(principals, i)
  }

  function Find(principals: seq<Principal>, id: int): Option<Principal> {
    if principals == [] then None
    else if principals[0].id == id then Some(principals[0])
    else Find(principals[1..], id)
  }

  // The reference names a declared principal and agrees with it about the primary identity.
  predicate Resolves(principals: seq<Principal>, r: PrincipalRef) {
    Find(principals, r.id).Some? && Find(principals, r.id).value.primary == r.primary
  }

  predicate AllResolve(principals: seq<Principal>, references: seq<PrincipalRef>) {
    forall i | 0 <= i < |references| :: Resolves(principals, references[i])
  }

  predicate Owned(principals: seq<Principal>, identity: Identity) {
    exists i | 0 <= i < |principals| :: identity in principals[i].identities
  }

  // Adds the principals that are referred to and not declared; None is an inconsistent reference.
  function Include(principals: seq<Principal>, references: seq<PrincipalRef>): Option<seq<Principal>>
    decreases |references|
  {
    if references == [] then Some(principals)
    else
      var r := references[0];
      if Find(principals, r.id).Some? then
        if Resolves(principals, r) then Include(principals, references[1..]) else None
      else if Owned(principals, r.primary) then None
      else Include(principals + [Single(r)], references[1..])
  }

  // ---------------------------------------------------------------- lookup

  lemma {:induction false} FindFinds(principals: seq<Principal>, id: int) returns (i: nat)
    ensures Find(principals, id).Some? ==>
              i < |principals| && principals[i] == Find(principals, id).value && principals[i].id == id
    ensures Find(principals, id).None? ==> forall j | 0 <= j < |principals| :: principals[j].id != id
  {
    i := 0;
    if principals != [] && principals[0].id != id {
      var k := FindFinds(principals[1..], id);
      i := k + 1;
      if Find(principals, id).None? {
        forall j | 0 <= j < |principals|
          ensures principals[j].id != id
        {
          if j > 0 {
            assert principals[1..][j - 1] == principals[j];
          }
        }
      }
    }
  }

  lemma {:induction false} FindAt(principals: seq<Principal>, i: nat)
    requires Declared(principals) && i < |principals|
    ensures Find(principals, principals[i].id) == Some(principals[i])
  {
    var j := FindFinds(principals, principals[i].id);
    assert PrincipalOk(principals, i) && PrincipalOk(principals, j);
  }

  // Appending keeps what is found.
  lemma {:induction false} FindAppends(principals: seq<Principal>, more: seq<Principal>, id: int)
    ensures Find(principals + more, id) == if Find(principals, id).Some? then Find(principals, id) else Find(more, id)
  {
    if principals == [] {
      assert principals + more == more;
    } else {
      assert (principals + more)[1..] == principals[1..] + more;
      FindAppends(principals[1..], more, id);
    }
  }

  // A declared identity belongs to one principal.
  lemma {:induction false} OwnerIsUnique(principals: seq<Principal>, i: nat, j: nat, identity: Identity)
    requires Declared(principals) && i < |principals| && j < |principals|
    requires identity in principals[i].identities && identity in principals[j].identities
    ensures i == j
  {
    assert PrincipalOk(principals, i) && PrincipalOk(principals, j);
  }

  // ---------------------------------------------------------------- including

  lemma {:induction false} AppendSingle(principals: seq<Principal>, r: PrincipalRef)
    requires Declared(principals) && Find(principals, r.id).None? && !Owned(principals, r.primary)
    ensures Declared(principals + [Single(r)])
    ensures Resolves(principals + [Single(r)], r)
  {
    var longer := principals + [Single(r)];
    var k := FindFinds(principals, r.id);
    forall i | 0 <= i < |longer|
      ensures PrincipalOk(longer, i)
    {
      if i < |principals| {
        assert PrincipalOk(principals, i);
      } else {
        assert longer[i].identities == [r.primary];
      }
    }
    FindAppends(principals, [Single(r)], r.id);
  }

  // Including only appends, leaves the declarations consistent and makes every reference resolve.
  lemma {:induction false} IncludeResolves(principals: seq<Principal>, references: seq<PrincipalRef>)
    requires Declared(principals) && Include(principals, references).Some?
    ensures principals <= Include(principals, references).value
    ensures Declared(Include(principals, references).value)
    ensures AllResolve(Include(principals, references).value, references)
    decreases |references|
  {
    if references != [] {
      var r := references[0];
      var start := if Find(principals, r.id).Some? then principals else principals + [Single(r)];
      if Find(principals, r.id).None? {
        AppendSingle(principals, r);
      }
      IncludeResolves(start, references[1..]);
      var all := Include(principals, references).value;
      assert all == start + all[|start|..];
      FindAppends(start, all[|start|..], r.id);
      forall i | 0 <= i < |references|
        ensures Resolves(all, references[i])
      {
        if i > 0 {
          assert references[1..][i - 1] == references[i];
        }
      }
    }
  }

  // When all references already resolve, including changes nothing.
  lemma {:induction false} IncludeOfResolved(principals: seq<Principal>, references: seq<PrincipalRef>)
    requires AllResolve(principals, references)
    ensures Include(principals, references) == Some(principals)
    decreases |references|
  {
    if references != [] {
      assert Resolves(principals, references[0]);
      forall i | 0 <= i < |references[1..]|
        ensures Resolves(principals, references[1..][i])
      {
        assert references[1..][i] == references[i + 1];
      }
      IncludeOfResolved(principals, references[1..]);
    }
  }

  // ---------------------------------------------------------------- when including succeeds

  // A declared principal and a reference agree about who has the ID and who has the identity.
  predicate Agrees(p: Principal, r: PrincipalRef) {
    && (p.id == r.id ==> p.primary == r.primary)
    && (r.primary in p.identities ==> p.id == r.id)
  }

  predicate Compatible(principals: seq<Principal>, references: seq<PrincipalRef>) {
    && (forall i, j | 0 <= i < |principals| && 0 <= j < |references| :: Agrees(principals[i], references[j]))
    && forall i, j | 0 <= i < |references| && 0 <= j < |references| ::
         references[i].id == references[j].id <==> references[i].primary == references[j].primary
  }

  lemma {:induction false} ResolvedAgree(principals: seq<Principal>, i: nat, r: PrincipalRef)
    requires Declared(principals) && i < |principals| && Resolves(principals, r)
    ensures Agrees(principals[i], r)
  {
    var k := FindFinds(principals, r.id);
    FindAt(principals, i);
    if r.primary in principals[i].identities {
      assert ValidPrincipal(principals[k]);
      OwnerIsUnique(principals, i, k, r.primary);
    }
  }

  lemma {:induction false} ResolvedPairsAgree(principals: seq<Principal>, r: PrincipalRef, q: PrincipalRef)
    requires Declared(principals) && Resolves(principals, r) && Resolves(principals, q)
    ensures r.id == q.id <==> r.primary == q.primary
  {
    var k := FindFinds(principals, r.id);
    var m := FindFinds(principals, q.id);
    assert ValidPrincipal(principals[k]) && ValidPrincipal(principals[m]);
    if r.primary == q.primary {
      OwnerIsUnique(principals, k, m, r.primary);
    }
  }

  lemma {:induction false} CompatibleRest(principals: seq<Principal>, references: seq<PrincipalRef>)
    requires references != [] && Compatible(principals, references)
    ensures Compatible(principals, references[1..])
    ensures Compatible(principals + [Single(references[0])], references[1..])
  {
    var rest := references[1..];
    forall j | 0 <= j < |rest|
      ensures rest[j] == references[j + 1]
    {
    }
    var longer := principals + [Single(references[0])];
    forall i, j | 0 <= i < |longer| && 0 <= j < |rest|
      ensures Agrees(longer[i], rest[j])
    {
      if i == |principals| {
        assert references[0].id == references[j + 1].id <==> references[0].primary == references[j + 1].primary;
      }
    }
  }

  // Including succeeds exactly when no two principals claim one ID or one identity, whatever the
  // order of the references is.
  lemma {:induction false} IncludeSucceeds(principals: seq<Principal>, references: seq<PrincipalRef>)
    requires Declared(principals)
    ensures Include(principals, references).Some? <==> Compatible(principals, references)
    decreases |references|
  {
    if Include(principals, references).Some? {
      IncludeResolves(principals, references);
      var all := Include(principals, references).value;
      forall i, j | 0 <= i < |principals| && 0 <= j < |references|
        ensures Agrees(principals[i], references[j])
      {
        assert all[i] == principals[i];
        ResolvedAgree(all, i, references[j]);
      }
      forall i, j | 0 <= i < |references| && 0 <= j < |references|
        ensures references[i].id == references[j].id <==> references[i].primary == references[j].primary
      {
        ResolvedPairsAgree(all, references[i], references[j]);
      }
    } else {
      IncludeFails(principals, references);
    }
  }

  lemma {:induction false} IncludeFails(principals: seq<Principal>, references: seq<PrincipalRef>)
    requires Declared(principals) && Include(principals, references).None?
    ensures !Compatible(principals, references)
    decreases |references|
  {
    if Compatible(principals, references) {
      var r := references[0];
      CompatibleRest(principals, references);
      var k := FindFinds(principals, r.id);
      if Find(principals, r.id).Some? {
        assert Agrees(principals[k], r);
        IncludeFails(principals, references[1..]);
      } else {
        assert forall i | 0 <= i < |principals| :: Agrees(principals[i], r);
        AppendSingle(principals, r);
        IncludeFails(principals + [Single(r)], references[1..]);
      }
    }
  }
}
