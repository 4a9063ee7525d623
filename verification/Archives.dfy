// The portable archive and its canonical order (`Archive` and `Archive::canonical` in
// crates/marginalis-archive/src/archive.rs).
module Archives {
  import opened Options
  import opened Domain
  import opened Sequences
  import opened Sorting

  // ---------------------------------------------------------------- records

  datatype ArchivePrincipal = ArchivePrincipal(primary: Identity, aliases: seq<Identity>)

  datatype ReviewFields = ReviewFields(
    trackingKnown: bool, revision: Option<I64>, reviewedAt: Option<I64>, issuer: Option<string>,
    subject: Option<string>)

  datatype Provenance = Provenance(createdVia: CreationSource, review: ReviewFields)

  datatype ArchiveNote = ArchiveNote(
    noteId: string, creator: Identity, source: string, createdAt: I64, updatedAt: I64, revision: I64,
    deletedAt: Option<I64>, provenance: Option<Provenance>)

  datatype ArchiveRevision = ArchiveRevision(
    noteId: string, revision: I64, changedAt: I64, changedBy: Identity, kind: RevisionKind, source: string,
    deletedAt: Option<I64>, review: ReviewFields, attachmentIds: seq<string>)

  datatype ArchiveAttachment = ArchiveAttachment(
    attachmentId: string, noteId: string, fileName: string, mediaType: MediaType, byteLength: nat,
    sha256: string, contentBase64: string, createdAt: I64, createdBy: Identity)

  datatype ArchiveAcl = ArchiveAcl(noteId: string, identity: Identity, permission: Permission)

  datatype Archive = Archive(
    format: string, packageVersion: string, profileVersion: nat,
    principals: Option<seq<ArchivePrincipal>>, notes: seq<ArchiveNote>, revisions: Option<seq<ArchiveRevision>>,
    attachments: Option<seq<ArchiveAttachment>>, acl: seq<ArchiveAcl>)

  // ---------------------------------------------------------------- canonical order

  function IdentityKey(i: Identity): Key { [Points(i.issuer), Points(i.subject)] }

  function PrincipalKey(p: ArchivePrincipal): Key { IdentityKey(p.primary) }

  function NoteKey(n: ArchiveNote): Key { [Points(n.noteId)] }

  function TextKey(text: string): Key { [Points(text)] }

  function ArchiveRevisionKey(e: ArchiveRevision): Key { [Points(e.noteId), [e.revision]] }

  function ArchiveAttachmentKey(a: ArchiveAttachment): Key { [Points(a.attachmentId)] }

  function ArchiveAclKey(e: ArchiveAcl): Key { [Points(e.noteId), Points(e.identity.issuer),
                                                Points(e.identity.subject)] }

  function SortAliases(p: ArchivePrincipal): ArchivePrincipal {
    p.(aliases := Sort(p.aliases, IdentityKey))
  }

  function SortIds(e: ArchiveRevision): ArchiveRevision {
    e.(attachmentIds := Sort(e.attachmentIds, TextKey))
  }

  function CanonicalPrincipals(principals: seq<ArchivePrincipal>): seq<ArchivePrincipal> {
    Sort(Map(SortAliases, principals), PrincipalKey)
  }

  function CanonicalRevisions(revisions: seq<ArchiveRevision>): seq<ArchiveRevision> {
    Sort(Map(SortIds, revisions), ArchiveRevisionKey)
  }

  function Canonical(a: Archive): Archive {
    a.(principals := if a.principals.Some? then Some(CanonicalPrincipals(a.principals.value)) else None,
       notes := Sort(a.notes, NoteKey),
       revisions := if a.revisions.Some? then Some(CanonicalRevisions(a.revisions.value)) else None,
       attachments := if a.attachments.Some? then Some(Sort(a.attachments.value, ArchiveAttachmentKey)) else None,
       acl := Sort(a.acl, ArchiveAclKey))
  }

  // The loops of `canonical` sort the nested lists in place before the lists that hold them.
  method SortEachAliases(principals: seq<ArchivePrincipal>) returns (sorted: seq<ArchivePrincipal>)
    ensures sorted == Map(SortAliases, principals)
  {
    sorted := principals;
    for i := 0 to |principals|
      invariant |sorted| == |principals|
      invariant forall j | 0 <= j < i :: sorted[j] == SortAliases(principals[j])
      invariant forall j | i <= j < |principals| :: sorted[j] == principals[j]
    {
      sorted := sorted[i := SortAliases(sorted[i])];
    }
  }

  method SortEachIds(revisions: seq<ArchiveRevision>) returns (sorted: seq<ArchiveRevision>)
    ensures sorted == Map(SortIds, revisions)
  {
    sorted := revisions;
    for i := 0 to |revisions|
      invariant |sorted| == |revisions|
      invariant forall j | 0 <= j < i :: sorted[j] == SortIds(revisions[j])
      invariant forall j | i <= j < |revisions| :: sorted[j] == revisions[j]
    {
      sorted := sorted[i := SortIds(sorted[i])];
    }
  }

  method ToCanonical(a: Archive) returns (r: Archive)
    ensures r == Canonical(a)
  {
    r := a;
    if r.principals.Some? {
      var principals := SortEachAliases(r.principals.value);
      r := r.(principals := Some(Sort(principals, PrincipalKey)));
    }
    r := r.(notes := Sort(r.notes, NoteKey));
    if r.revisions.Some? {
      var revisions := SortEachIds(r.revisions.value);
      r := r.(revisions := Some(Sort(revisions, ArchiveRevisionKey)));
    }
    if r.attachments.Some? {
      r := r.(attachments := Some(Sort(r.attachments.value, ArchiveAttachmentKey)));
    }
    r := r.(acl := Sort(r.acl, ArchiveAclKey));
  }

  // ---------------------------------------------------------------- keys

  lemma {:induction false} IdentityKeysIdentify(a: Identity, b: Identity)
    ensures IdentityKey(a) == IdentityKey(b) <==> a == b
  {
    if IdentityKey(a) == IdentityKey(b) {
      assert IdentityKey(a)[0] == IdentityKey(b)[0] && IdentityKey(a)[1] == IdentityKey(b)[1];
      PointsInjective(a.issuer, b.issuer);
      PointsInjective(a.subject, b.subject);
    }
  }

  lemma {:induction false} TextKeysIdentify(a: string, b: string)
    ensures TextKey(a) == TextKey(b) <==> a == b
  {
    if TextKey(a) == TextKey(b) {
      assert TextKey(a)[0] == TextKey(b)[0];
      PointsInjective(a, b);
    }
  }

  // Sorting identities, or texts, depends only on which there are and how often.
  lemma {:induction false} SortIdentities(a: seq<Identity>, b: seq<Identity>)
    ensures Sort(a, IdentityKey) == Sort(b, IdentityKey) <==> multiset(a) == multiset(b)
  {
    SortPermutes(a, IdentityKey);
    SortPermutes(b, IdentityKey);
    if multiset(a) == multiset(b) {
      forall x, y | x in a && y in a && IdentityKey(x) == IdentityKey(y)
        ensures x == y
      {
        IdentityKeysIdentify(x, y);
      }
      SortOfPermutation(a, b, IdentityKey);
    }
  }

  lemma {:induction false} SortTexts(a: seq<string>, b: seq<string>)
    ensures Sort(a, TextKey) == Sort(b, TextKey) <==> multiset(a) == multiset(b)
  {
    SortPermutes(a, TextKey);
    SortPermutes(b, TextKey);
    if multiset(a) == multiset(b) {
      forall x, y | x in a && y in a && TextKey(x) == TextKey(y)
        ensures x == y
      {
        TextKeysIdentify(x, y);
      }
      SortOfPermutation(a, b, TextKey);
    }
  }

  // ---------------------------------------------------------------- idempotence

  lemma {:induction false} SortAliasesTwice(principals: seq<ArchivePrincipal>)
    ensures Map(SortAliases, Map(SortAliases, principals)) == Map(SortAliases, principals)
  {
    forall i | 0 <= i < |principals|
      ensures SortAliases(SortAliases(principals[i])) == SortAliases(principals[i])
    {
      SortIdempotent(principals[i].aliases, IdentityKey);
    }
  }

  lemma {:induction false} SortIdsTwice(revisions: seq<ArchiveRevision>)
    ensures Map(SortIds, Map(SortIds, revisions)) == Map(SortIds, revisions)
  {
    forall i | 0 <= i < |revisions|
      ensures SortIds(SortIds(revisions[i])) == SortIds(revisions[i])
    {
      SortIdempotent(revisions[i].attachmentIds, TextKey);
    }
  }

  lemma {:induction false} CanonicalPrincipalsTwice(principals: seq<ArchivePrincipal>)
    ensures CanonicalPrincipals(CanonicalPrincipals(principals)) == CanonicalPrincipals(principals)
  {
    var once := Map(SortAliases, principals);
    SortMaps(SortAliases, once, PrincipalKey, PrincipalKey);
    SortAliasesTwice(principals);
    SortIdempotent(once, PrincipalKey);
  }

  lemma {:induction false} CanonicalRevisionsTwice(revisions: seq<ArchiveRevision>)
    ensures CanonicalRevisions(CanonicalRevisions(revisions)) == CanonicalRevisions(revisions)
  {
    var once := Map(SortIds, revisions);
    SortMaps(SortIds, once, ArchiveRevisionKey, ArchiveRevisionKey);
    SortIdsTwice(revisions);
    SortIdempotent(once, ArchiveRevisionKey);
  }

  lemma {:induction false} CanonicalIdempotent(a: Archive)
    ensures Canonical(Canonical(a)) == Canonical(a)
  {
    if a.principals.Some? {
      CanonicalPrincipalsTwice(a.principals.value);
    }
    if a.revisions.Some? {
      CanonicalRevisionsTwice(a.revisions.value);
    }
    if a.attachments.Some? {
      SortIdempotent(a.attachments.value, ArchiveAttachmentKey);
    }
    SortIdempotent(a.notes, NoteKey);
    SortIdempotent(a.acl, ArchiveAclKey);
  }

  // ---------------------------------------------------------------- reordering

  // A principal without the order of its aliases, and a revision without the order of its attachments.
  datatype PrincipalBag = PrincipalBag(primary: Identity, aliases: multiset<Identity>)

  datatype RevisionBag = RevisionBag(entry: ArchiveRevision, attachmentIds: multiset<string>)

  function BagOfPrincipal(p: ArchivePrincipal): PrincipalBag {
    PrincipalBag(p.primary, multiset(p.aliases))
  }

  function BagOfRevision(e: ArchiveRevision): RevisionBag {
    RevisionBag(e.(attachmentIds := []), multiset(e.attachmentIds))
  }

  // The same content in any order: of the lists, and of the alias and attachment lists inside them.
  predicate SameContent(a: Archive, b: Archive) {
    && a.format == b.format && a.packageVersion == b.packageVersion && a.profileVersion == b.profileVersion
    && a.principals.Some? == b.principals.Some? && a.revisions.Some? == b.revisions.Some?
    && a.attachments.Some? == b.attachments.Some?
    && (a.principals.Some? ==>
          multiset(Map(BagOfPrincipal, a.principals.value)) == multiset(Map(BagOfPrincipal, b.principals.value)))
    && multiset(a.notes) == multiset(b.notes)
    && (a.revisions.Some? ==>
          multiset(Map(BagOfRevision, a.revisions.value)) == multiset(Map(BagOfRevision, b.revisions.value)))
    && (a.attachments.Some? ==> multiset(a.attachments.value) == multiset(b.attachments.value))
    && multiset(a.acl) == multiset(b.acl)
  }

  // No two records of one kind share their sort key.
  ghost predicate UniqueRecords(a: Archive) {
    && (a.principals.Some? ==> UniqueKeys(a.principals.value, PrincipalKey))
    && UniqueKeys(a.notes, NoteKey)
    && (a.revisions.Some? ==> UniqueKeys(a.revisions.value, ArchiveRevisionKey))
    && (a.attachments.Some? ==> UniqueKeys(a.attachments.value, ArchiveAttachmentKey))
    && UniqueKeys(a.acl, ArchiveAclKey)
  }

  // A map that another map determines takes equal multisets to equal multisets.
  lemma {:induction false} MapThrough<T, B, C>(f: T -> B, g: T -> C, a: seq<T>, b: seq<T>)
    requires multiset(Map(f, a)) == multiset(Map(f, b))
    requires forall x, y | x in a && y in b && f(x) == f(y) :: g(x) == g(y)
    ensures multiset(Map(g, a)) == multiset(Map(g, b))
    decreases |a|
  {
    if a == [] {
      PermutationMembers(Map(f, a), Map(f, b));
      assert b == [];
    } else {
      var j := Match(f, a, b);
      RestsAgree(f, a, b, j);
      assert a[0] in a && b[j] in b;
      MapThrough(f, g, a[1..], b[..j] + b[j + 1..]);
      MapRemoves(g, b, j);
      MapHead(g, a);
    }
  }

  lemma {:induction false} Match<T, B>(f: T -> B, a: seq<T>, b: seq<T>) returns (j: nat)
    requires a != [] && multiset(Map(f, a)) == multiset(Map(f, b))
    ensures j < |b| && f(b[j]) == f(a[0])
  {
    var first := Map(f, a)[0];
    assert first in multiset(Map(f, a));
    assert first in multiset(Map(f, b));
    j := MapIndex(f, b, first);
  }

  lemma {:induction false} RestsAgree<T, B>(f: T -> B, a: seq<T>, b: seq<T>, j: nat)
    requires a != [] && j < |b| && f(b[j]) == f(a[0])
    requires multiset(Map(f, a)) == multiset(Map(f, b))
    ensures multiset(Map(f, a[1..])) == multiset(Map(f, b[..j] + b[j + 1..]))
  {
    MapHead(f, a);
    MapRemoves(f, b, j);
    Cancel(f(a[0]), multiset(Map(f, a[1..])), multiset(Map(f, b[..j] + b[j + 1..])));
  }

  lemma {:induction false} MapHead<T, B>(f: T -> B, a: seq<T>)
    requires a != []
    ensures multiset(Map(f, a)) == multiset{f(a[0])} + multiset(Map(f, a[1..]))
  {
    assert Map(f, a) == [f(a[0])] + Map(f, a[1..]);
  }

  lemma {:induction false} MapRemoves<T, B>(f: T -> B, b: seq<T>, j: nat)
    requires j < |b|
    ensures multiset(Map(f, b)) == multiset{f(b[j])} + multiset(Map(f, b[..j] + b[j + 1..]))
  {
    var m := Map(f, b);
    assert m == m[..j] + [m[j]] + m[j + 1..];
    assert Map(f, b[..j] + b[j + 1..]) == m[..j] + m[j + 1..];
  }

  lemma {:induction false} PrincipalBags(p: ArchivePrincipal, q: ArchivePrincipal)
    ensures SortAliases(p) == SortAliases(q) <==> BagOfPrincipal(p) == BagOfPrincipal(q)
  {
    SortIdentities(p.aliases, q.aliases);
  }

  lemma {:induction false} RevisionBags(e: ArchiveRevision, f: ArchiveRevision)
    ensures SortIds(e) == SortIds(f) <==> BagOfRevision(e) == BagOfRevision(f)
  {
    SortTexts(e.attachmentIds, f.attachmentIds);
    if SortIds(e) == SortIds(f) {
      assert e.(attachmentIds := []) == SortIds(e).(attachmentIds := []);
      assert f.(attachmentIds := []) == SortIds(f).(attachmentIds := []);
    }
    if BagOfRevision(e) == BagOfRevision(f) {
      assert SortIds(e) == e.(attachmentIds := []).(attachmentIds := SortIds(e).attachmentIds);
      assert SortIds(f) == f.(attachmentIds := []).(attachmentIds := SortIds(f).attachmentIds);
    }
  }

  lemma {:induction false} PrincipalsCanonicalize(a: seq<ArchivePrincipal>, b: seq<ArchivePrincipal>)
    ensures CanonicalPrincipals(a) == CanonicalPrincipals(b) ==>
              multiset(Map(BagOfPrincipal, a)) == multiset(Map(BagOfPrincipal, b))
    ensures UniqueKeys(a, PrincipalKey) && multiset(Map(BagOfPrincipal, a)) == multiset(Map(BagOfPrincipal, b)) ==>
              CanonicalPrincipals(a) == CanonicalPrincipals(b)
  {
    var x, y := Map(SortAliases, a), Map(SortAliases, b);
    SortPermutes(x, PrincipalKey);
    SortPermutes(y, PrincipalKey);
    forall p, q | p in a && q in b
      ensures SortAliases(p) == SortAliases(q) <==> BagOfPrincipal(p) == BagOfPrincipal(q)
    {
      PrincipalBags(p, q);
    }
    if CanonicalPrincipals(a) == CanonicalPrincipals(b) {
      MapThrough(SortAliases, BagOfPrincipal, a, b);
    }
    if UniqueKeys(a, PrincipalKey) && multiset(Map(BagOfPrincipal, a)) == multiset(Map(BagOfPrincipal, b)) {
      MapThrough(BagOfPrincipal, SortAliases, a, b);
      assert UniqueKeys(x, PrincipalKey);
      UniqueKeysIdentify(x, PrincipalKey);
      SortOfPermutation(x, y, PrincipalKey);
    }
  }

  lemma {:induction false} RevisionsCanonicalize(a: seq<ArchiveRevision>, b: seq<ArchiveRevision>)
    ensures CanonicalRevisions(a) == CanonicalRevisions(b) ==>
              multiset(Map(BagOfRevision, a)) == multiset(Map(BagOfRevision, b))
    ensures UniqueKeys(a, ArchiveRevisionKey) && multiset(Map(BagOfRevision, a)) == multiset(Map(BagOfRevision, b)) ==>
              CanonicalRevisions(a) == CanonicalRevisions(b)
  {
    var x, y := Map(SortIds, a), Map(SortIds, b);
    SortPermutes(x, ArchiveRevisionKey);
    SortPermutes(y, ArchiveRevisionKey);
    forall p, q | p in a && q in b
      ensures SortIds(p) == SortIds(q) <==> BagOfRevision(p) == BagOfRevision(q)
    {
      RevisionBags(p, q);
    }
    if CanonicalRevisions(a) == CanonicalRevisions(b) {
      MapThrough(SortIds, BagOfRevision, a, b);
    }
    if UniqueKeys(a, ArchiveRevisionKey) && multiset(Map(BagOfRevision, a)) == multiset(Map(BagOfRevision, b)) {
      MapThrough(BagOfRevision, SortIds, a, b);
      assert UniqueKeys(x, ArchiveRevisionKey);
      UniqueKeysIdentify(x, ArchiveRevisionKey);
      SortOfPermutation(x, y, ArchiveRevisionKey);
    }
  }

  lemma {:induction false} ListsCanonicalize<T(!new)>(a: seq<T>, b: seq<T>, key: T -> Key)
    ensures Sort(a, key) == Sort(b, key) ==> multiset(a) == multiset(b)
    ensures UniqueKeys(a, key) && multiset(a) == multiset(b) ==> Sort(a, key) == Sort(b, key)
  {
    SortPermutes(a, key);
    SortPermutes(b, key);
    if UniqueKeys(a, key) && multiset(a) == multiset(b) {
      UniqueKeysIdentify(a, key);
      SortOfPermutation(a, b, key);
    }
  }

  // Two archives whose records have unique keys are canonically equal exactly when they have the same
  // content, whatever the order of their lists and of the lists inside the records is.
  lemma {:induction false} CanonicalIffSameContent(a: Archive, b: Archive)
    ensures Canonical(a) == Canonical(b) ==> SameContent(a, b)
    ensures UniqueRecords(a) && SameContent(a, b) ==> Canonical(a) == Canonical(b)
  {
    if a.principals.Some? && b.principals.Some? {
      PrincipalsCanonicalize(a.principals.value, b.principals.value);
    }
    if a.revisions.Some? && b.revisions.Some? {
      RevisionsCanonicalize(a.revisions.value, b.revisions.value);
    }
    if a.attachments.Some? && b.attachments.Some? {
      ListsCanonicalize(a.attachments.value, b.attachments.value, ArchiveAttachmentKey);
    }
    ListsCanonicalize(a.notes, b.notes, NoteKey);
    ListsCanonicalize(a.acl, b.acl, ArchiveAclKey);
    if Canonical(a) == Canonical(b) {
      SameScalars(a, b);
    }
  }

  lemma {:induction false} SameScalars(a: Archive, b: Archive)
    requires Canonical(a) == Canonical(b)
    ensures a.format == b.format && a.packageVersion == b.packageVersion && a.profileVersion == b.profileVersion
    ensures a.principals.Some? == b.principals.Some? && a.revisions.Some? == b.revisions.Some?
    ensures a.attachments.Some? == b.attachments.Some?
  {
    assert Canonical(a).format == a.format && Canonical(b).format == b.format;
  }

  // Putting an archive in order keeps its content.
  lemma {:induction false} CanonicalKeepsContent(a: Archive)
    ensures SameContent(a, Canonical(a))
  {
    CanonicalIdempotent(a);
    CanonicalIffSameContent(a, Canonical(a));
  }
}
