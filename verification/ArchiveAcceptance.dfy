// Exactly which archives are accepted, and as which snapshot (`validate_archive` in
// crates/marginalis-archive/src/archive.rs).
module ArchiveAcceptance {
  import opened Options
  import opened Domain
  import opened Sequences
  import opened Sorting
  import opened TextOrder
  import opened Principals
  import opened Snapshots
  import opened SnapshotAcceptance
  import opened Archives
  import opened ArchiveContents
  import opened ArchivePrincipals
  import opened ArchiveReading
  import opened RecordOrder
  import opened RecordReading

  // ---------------------------------------------------------------- the table of principals

  function Identities(e: ArchivePrincipal): seq<Identity> { [e.primary] + e.aliases }

  // All identities are valid, none stands twice under one principal, and none stands under two.
  predicate GoodTable(env: Environment, entries: seq<ArchivePrincipal>) {
    && (forall e | e in entries :: forall identity | identity in Identities(e) :: env.validIdentity(identity))
    && (forall e | e in entries :: DistinctIdentities(Identities(e)))
    && forall i, j | 0 <= i < j < |entries| ::
         forall identity | identity in Identities(entries[i]) :: identity !in Identities(entries[j])
  }

  // The principal has the primary identity and the aliases of an entry, in this order.
  predicate IsFrom(p: Principal, entries: seq<ArchivePrincipal>) {
    && p.identities != [] && p.identities[0] == p.primary
    && ArchivePrincipal(p.primary, p.identities[1..]) in entries
  }

  // The principals are those of the entries, numbered from one in the order of their primary identities.
  predicate IsTableOf(principals: seq<Principal>, entries: seq<ArchivePrincipal>) {
    && |principals| == |entries|
    && (forall k | 0 <= k < |principals| :: principals[k].id == k + 1 && IsFrom(principals[k], entries))
    && (forall j, k | 0 <= j < k < |principals| ::
          IdentityLe(principals[j].primary, principals[k].primary) && principals[j].primary != principals[k].primary)
    && forall e | e in entries :: HasPrimary(principals, e.primary)
  }

  predicate HasPrimary(principals: seq<Principal>, identity: Identity) {
    exists k | 0 <= k < |principals| :: principals[k].primary == identity
  }

  lemma {:induction false} DistinctTogether(a: seq<Identity>, b: seq<Identity>)
    requires DistinctIdentities(a) && DistinctIdentities(b) && forall x | x in a :: x !in b
    ensures DistinctIdentities(a + b)
  {
    var whole := a + b;
    forall i, j | 0 <= i < j < |whole|
      ensures whole[i] != whole[j]
    {
      if i < |a| <= j {
        assert whole[i] in a && whole[j] == b[j - |a|];
      }
    }
  }

  lemma {:induction false} CollectedFrom(entries: seq<ArchivePrincipal>, x: Identity)
    ensures x in AllIdentities(entries) <==> exists i | 0 <= i < |entries| :: x in Identities(entries[i])
  {
    if entries != [] {
      CollectedFrom(entries[1..], x);
      assert forall i | 0 < i < |entries| :: entries[i] == entries[1..][i - 1];
    }
  }

  lemma {:induction false} AllDistinct(entries: seq<ArchivePrincipal>)
    requires forall i | 0 <= i < |entries| :: DistinctIdentities(Identities(entries[i]))
    requires forall i, j | 0 <= i < j < |entries| ::
               forall identity | identity in Identities(entries[i]) :: identity !in Identities(entries[j])
    ensures DistinctIdentities(AllIdentities(entries))
  {
    if entries != [] {
      var rest := entries[1..];
      assert forall i | 0 <= i < |rest| :: rest[i] == entries[i + 1];
      AllDistinct(rest);
      forall x | x in Identities(entries[0])
        ensures x !in AllIdentities(rest)
      {
        CollectedFrom(rest, x);
      }
      DistinctTogether(Identities(entries[0]), AllIdentities(rest));
    }
  }

  lemma {:induction false} TableOkIff(env: Environment, entries: seq<ArchivePrincipal>)
    ensures EntriesOk(env, entries) <==> GoodTable(env, entries)
  {
    assert forall i | 0 <= i < |entries| :: entries[i] in entries && Identities(entries[i]) == IdentitiesOf(entries[i]);
    ValidIff(env, entries);
    if EntriesOk(env, entries) {
      forall e | e in entries
        ensures DistinctIdentities(Identities(e))
      {
        var i :| 0 <= i < |entries| && entries[i] == e;
        EntryIsDistinct(entries, i);
      }
      forall i, j | 0 <= i < j < |entries|
        ensures forall identity | identity in Identities(entries[i]) :: identity !in Identities(entries[j])
      {
        EntriesAreDisjoint(entries, i, j);
      }
    } else if GoodTable(env, entries) {
      AllDistinct(entries);
    }
  }

  lemma {:induction false} ValidIff(env: Environment, entries: seq<ArchivePrincipal>)
    ensures EntriesValid(env, entries)
            <==> forall e | e in entries :: forall identity | identity in Identities(e) :: env.validIdentity(identity)
  {
    forall e | e in entries
      ensures EntryOk(env, e) <==> forall identity | identity in Identities(e) :: env.validIdentity(identity)
    {
      assert IdentitiesOf(e) == Identities(e);
      assert forall i | 0 <= i < |Identities(e)| :: Identities(e)[i] in Identities(e);
    }
    assert forall i | 0 <= i < |entries| :: entries[i] in entries;
  }

  lemma {:induction false} PairwiseSorted<T>(s: seq<T>, key: T -> Key)
    requires forall i, j | 0 <= i < j < |s| :: KeyLe(key(s[i]), key(s[j]))
    ensures IsSorted(s, key)
  {
    if s != [] {
      var rest := s[1..];
      assert forall i | 0 <= i < |rest| :: rest[i] == s[i + 1];
      PairwiseSorted(rest, key);
    }
  }

  // Of a good table, an entry is known by its primary identity.
  lemma {:induction false} EntryByPrimary(env: Environment, entries: seq<ArchivePrincipal>, e: ArchivePrincipal,
                                          f: ArchivePrincipal)
    requires GoodTable(env, entries) && e in entries && f in entries && e.primary == f.primary
    ensures e == f
  {
    var i :| 0 <= i < |entries| && entries[i] == e;
    var j :| 0 <= j < |entries| && entries[j] == f;
    assert Identities(e)[0] == e.primary && Identities(f)[0] == e.primary;
    assert e.primary in Identities(e) && e.primary in Identities(f);
  }

  lemma {:induction false} PrimaryKeysDiffer(env: Environment, entries: seq<ArchivePrincipal>)
    requires GoodTable(env, entries)
    ensures UniqueKeys(entries, PrincipalKey)
  {
    forall i, j | 0 <= i < j < |entries|
      ensures PrincipalKey(entries[i]) != PrincipalKey(entries[j])
    {
      IdentityKeysIdentify(entries[i].primary, entries[j].primary);
      assert Identities(entries[i])[0] in Identities(entries[i]) && Identities(entries[j])[0] in Identities(entries[j]);
    }
  }

  lemma {:induction false} NumberedAt(entries: seq<ArchivePrincipal>, k: nat)
    requires k < |entries|
    ensures |Numbered(entries)| == |entries|
    ensures Numbered(entries)[k] == Principal(k + 1, entries[k].primary, IdentitiesOf(entries[k]))
  {
  }

  lemma {:induction false} NumberedIsTable(env: Environment, entries: seq<ArchivePrincipal>)
    requires GoodTable(env, entries)
    ensures IsTableOf(Numbered(Sort(entries, PrincipalKey)), entries)
  {
    SortPermutes(entries, PrincipalKey);
    SortMembers(entries, PrincipalKey);
    NumberedGrows(env, entries);
    NumberedAreFrom(Sort(entries, PrincipalKey), entries);
    NumberedHaveAll(Sort(entries, PrincipalKey), entries);
  }

  lemma {:induction false} NumberedHaveAll(sorted: seq<ArchivePrincipal>, entries: seq<ArchivePrincipal>)
    requires forall e | e in entries :: e in sorted
    ensures forall e | e in entries :: HasPrimary(Numbered(sorted), e.primary)
  {
    forall e | e in entries
      ensures HasPrimary(Numbered(sorted), e.primary)
    {
      NumberedHas(sorted, e);
    }
  }

  lemma {:induction false} NumberedAreFrom(sorted: seq<ArchivePrincipal>, entries: seq<ArchivePrincipal>)
    requires forall e | e in sorted :: e in entries
    ensures forall k | 0 <= k < |Numbered(sorted)| ::
              Numbered(sorted)[k].id == k + 1 && IsFrom(Numbered(sorted)[k], entries)
  {
    forall k | 0 <= k < |Numbered(sorted)|
      ensures Numbered(sorted)[k].id == k + 1 && IsFrom(Numbered(sorted)[k], entries)
    {
      NumberedAt(sorted, k);
      assert sorted[k] in entries;
      NumberedIsFrom(sorted[k], k + 1, entries);
    }
  }

  lemma {:induction false} NumberedHas(sorted: seq<ArchivePrincipal>, e: ArchivePrincipal)
    requires e in sorted
    ensures HasPrimary(Numbered(sorted), e.primary)
  {
    var k :| 0 <= k < |sorted| && sorted[k] == e;
    NumberedAt(sorted, k);
  }

  lemma {:induction false} NumberedIsFrom(e: ArchivePrincipal, id: int, entries: seq<ArchivePrincipal>)
    requires e in entries
    ensures IsFrom(Principal(id, e.primary, IdentitiesOf(e)), entries)
  {
    assert IdentitiesOf(e)[1..] == e.aliases;
  }

  lemma {:induction false} NumberedGrows(env: Environment, entries: seq<ArchivePrincipal>)
    requires GoodTable(env, entries)
    ensures var table := Numbered(Sort(entries, PrincipalKey));
            forall j, k | 0 <= j < k < |table| ::
              IdentityLe(table[j].primary, table[k].primary) && table[j].primary != table[k].primary
  {
    var sorted := Sort(entries, PrincipalKey);
    SortSorts(entries, PrincipalKey);
    PrimaryKeysDiffer(env, entries);
    UniqueKeysOfSort(entries, PrincipalKey);
    forall j, k | 0 <= j < k < |sorted|
      ensures IdentityLe(sorted[j].primary, sorted[k].primary) && sorted[j].primary != sorted[k].primary
    {
      SortedAt(sorted, PrincipalKey, j, k);
      IdentityOrder(sorted[j].primary, sorted[k].primary);
      assert PrincipalKey(sorted[j]) != PrincipalKey(sorted[k]);
    }
  }

  function EntryOf(p: Principal): ArchivePrincipal {
    ArchivePrincipal(p.primary, if p.identities == [] then [] else p.identities[1..])
  }

  lemma {:induction false} EntriesOfTable(env: Environment, entries: seq<ArchivePrincipal>, principals: seq<Principal>,
                                          e: ArchivePrincipal)
    requires GoodTable(env, entries) && IsTableOf(principals, entries)
    ensures e in Map(EntryOf, principals) <==> e in entries
  {
    if e in Map(EntryOf, principals) {
      var k := MapIndex(EntryOf, principals, e);
      assert IsFrom(principals[k], entries);
    }
    if e in entries {
      var k :| 0 <= k < |principals| && principals[k].primary == e.primary;
      assert IsFrom(principals[k], entries);
      EntryByPrimary(env, entries, e, EntryOf(principals[k]));
      assert Map(EntryOf, principals)[k] == e;
    }
  }

  lemma {:induction false} TableIsSorted(entries: seq<ArchivePrincipal>, principals: seq<Principal>)
    requires IsTableOf(principals, entries)
    ensures IsSorted(Map(EntryOf, principals), PrincipalKey) && UniqueKeys(Map(EntryOf, principals), PrincipalKey)
  {
    var q := Map(EntryOf, principals);
    forall j, k | 0 <= j < k < |q|
      ensures KeyLe(PrincipalKey(q[j]), PrincipalKey(q[k])) && PrincipalKey(q[j]) != PrincipalKey(q[k])
    {
      IdentityOrder(principals[j].primary, principals[k].primary);
      IdentityKeysIdentify(principals[j].primary, principals[k].primary);
    }
    PairwiseSorted(q, PrincipalKey);
  }

  lemma {:induction false} TableIsNumbered(env: Environment, entries: seq<ArchivePrincipal>, principals: seq<Principal>)
    requires GoodTable(env, entries) && IsTableOf(principals, entries)
    ensures principals == Numbered(Sort(entries, PrincipalKey))
  {
    var q, sorted := Map(EntryOf, principals), Sort(entries, PrincipalKey);
    TableIsSorted(entries, principals);
    SortSorts(entries, PrincipalKey);
    SortMembers(entries, PrincipalKey);
    PrimaryKeysDiffer(env, entries);
    UniqueKeysOfSort(entries, PrincipalKey);
    forall x
      ensures x in q <==> x in sorted
    {
      EntriesOfTable(env, entries, principals, x);
    }
    SortedSetsAreEqual(q, sorted, PrincipalKey);
    NumberedAgain(entries, principals);
  }

  lemma {:induction false} NumberedAgain(entries: seq<ArchivePrincipal>, principals: seq<Principal>)
    requires IsTableOf(principals, entries)
    ensures Numbered(Map(EntryOf, principals)) == principals
  {
    var q := Map(EntryOf, principals);
    forall k | 0 <= k < |principals|
      ensures Numbered(q)[k] == principals[k]
    {
      NumberedAt(q, k);
      assert IsFrom(principals[k], entries);
      SamePrincipal(principals[k], entries);
    }
  }

  lemma {:induction false} SamePrincipal(p: Principal, entries: seq<ArchivePrincipal>)
    requires IsFrom(p, entries)
    ensures Principal(p.id, EntryOf(p).primary, IdentitiesOf(EntryOf(p))) == p
  {
    assert p.identities == [p.primary] + p.identities[1..];
  }

  // A table is read exactly when it is good, as the principals that it declares.
  lemma {:induction false} TableReads(env: Environment, entries: seq<ArchivePrincipal>, principals: seq<Principal>)
    ensures DeclaredPrincipals(env, entries) == Some(principals)
            <==> GoodTable(env, entries) && IsTableOf(principals, entries)
  {
    TableOkIff(env, entries);
    if GoodTable(env, entries) {
      NumberedIsTable(env, entries);
      if IsTableOf(principals, entries) {
        TableIsNumbered(env, entries, principals);
      }
    }
  }

  // ---------------------------------------------------------------- all records

  predicate NotesReadAs(env: Environment, principals: seq<Principal>, s: seq<ArchiveNote>, t: seq<Note>) {
    |t| == |s| && forall i | 0 <= i < |t| :: NoteReadsAs(env, principals, s[i], t[i])
  }

  predicate AclsReadAs(env: Environment, principals: seq<Principal>, s: seq<ArchiveAcl>, t: seq<NoteAcl>) {
    && |t| == |s|
    && forall i | 0 <= i < |t| ::
         && env.parseId(s[i].noteId) == Some(t[i].noteId) && t[i].permission == s[i].permission
         && NamesPrincipal(env, principals, s[i].identity, t[i].principal)
  }

  predicate RevisionsReadAs(env: Environment, principals: seq<Principal>, notes: seq<Note>, s: seq<ArchiveRevision>,
                            t: seq<NoteRevision>) {
    |t| == |s| && forall i | 0 <= i < |t| :: RevisionReadsAs(env, principals, notes, s[i], t[i])
  }

  predicate AttachmentsReadAs(env: Environment, principals: seq<Principal>, s: seq<ArchiveAttachment>,
                              t: seq<StoredAttachment>) {
    |t| == |s| && forall i | 0 <= i < |t| :: AttachmentReadsAs(env, principals, s[i], t[i])
  }

  ghost predicate AllReferencesReadAs(env: Environment, s: seq<ArchiveRevision>, t: seq<seq<AttachmentReference>>) {
    |t| == |s| && forall i | 0 <= i < |t| :: ReferencesReadAs(env, s[i], t[i])
  }

  // What the records of an archive are read as.
  ghost predicate ReadsAs(env: Environment, a: Archive, p: Parts)
    requires HasParts(a)
  {
    && a.principals.Some? && GoodTable(env, a.principals.value) && IsTableOf(p.principals, a.principals.value)
    && NotesReadAs(env, p.principals, a.notes, p.notes)
    && AclsReadAs(env, p.principals, a.acl, p.acl)
    && RevisionsReadAs(env, p.principals, p.notes, a.revisions.value, p.revisions)
    && AttachmentsReadAs(env, p.principals, a.attachments.value, p.attachments)
    && AllReferencesReadAs(env, a.revisions.value, p.references)
  }

  // A list is read exactly when each of its elements is.
  lemma {:induction false} TraverseReads<A, B>(f: A -> Option<B>, s: seq<A>, t: seq<B>)
    ensures Traverse(f, s) == Some(t) <==> |s| == |t| && forall i | 0 <= i < |s| :: f(s[i]) == Some(t[i])
  {
    if Traverse(f, s) == Some(t) {
      TraverseLength(f, s);
      forall i | 0 <= i < |s|
        ensures f(s[i]) == Some(t[i])
      {
        TraverseAt(f, s, i);
      }
    } else if |s| == |t| && forall i | 0 <= i < |s| :: f(s[i]) == Some(t[i]) {
      TraverseAll(f, s, t);
    }
  }

  lemma {:induction false} NotesRead(env: Environment, principals: seq<Principal>, s: seq<ArchiveNote>, t: seq<Note>)
    requires Declared(principals)
    ensures Traverse(NoteReader(env, principals), s) == Some(t)
            <==> NotesReadAs(env, principals, s, t)
  {
    TraverseReads(NoteReader(env, principals), s, t);
    if |t| == |s| {
      forall i | 0 <= i < |t|
        ensures NoteReader(env, principals)(s[i]) == Some(t[i]) <==> NoteReadsAs(env, principals, s[i], t[i])
      {
        NoteReads(env, principals, s[i], t[i]);
      }
    }
  }

  lemma {:induction false} AclsRead(env: Environment, principals: seq<Principal>, s: seq<ArchiveAcl>, t: seq<NoteAcl>)
    requires Declared(principals)
    ensures Traverse(AclReader(env, principals), s) == Some(t)
            <==> AclsReadAs(env, principals, s, t)
  {
    TraverseReads(AclReader(env, principals), s, t);
    if |t| == |s| {
      forall i | 0 <= i < |t|
        ensures AclReader(env, principals)(s[i]) == Some(t[i])
                <==> && env.parseId(s[i].noteId) == Some(t[i].noteId) && t[i].permission == s[i].permission
                     && NamesPrincipal(env, principals, s[i].identity, t[i].principal)
      {
        AclReadsAs(env, principals, s[i], t[i]);
      }
    }
  }

  lemma {:induction false} RevisionsRead(env: Environment, principals: seq<Principal>, notes: seq<Note>,
                                         s: seq<ArchiveRevision>, t: seq<NoteRevision>)
    requires Declared(principals) && NotesOk(notes)
    ensures Traverse(RevisionReader(env, principals, notes), s) == Some(t)
            <==> RevisionsReadAs(env, principals, notes, s, t)
  {
    TraverseReads(RevisionReader(env, principals, notes), s, t);
    if |t| == |s| {
      forall i | 0 <= i < |t|
        ensures RevisionReader(env, principals, notes)(s[i]) == Some(t[i])
                <==> RevisionReadsAs(env, principals, notes, s[i], t[i])
      {
        RevisionReads(env, principals, notes, s[i], t[i]);
      }
    }
  }

  lemma {:induction false} AttachmentsRead(env: Environment, principals: seq<Principal>, s: seq<ArchiveAttachment>,
                                           t: seq<StoredAttachment>)
    requires Declared(principals)
    ensures Traverse(AttachmentReader(env, principals), s) == Some(t)
            <==> AttachmentsReadAs(env, principals, s, t)
  {
    TraverseReads(AttachmentReader(env, principals), s, t);
    if |t| == |s| {
      forall i | 0 <= i < |t|
        ensures AttachmentReader(env, principals)(s[i]) == Some(t[i])
                <==> AttachmentReadsAs(env, principals, s[i], t[i])
      {
        AttachmentReads(env, principals, s[i], t[i]);
      }
    }
  }

  lemma {:induction false} AllReferencesRead(env: Environment, s: seq<ArchiveRevision>,
                                             t: seq<seq<AttachmentReference>>)
    ensures Traverse(ReferencesReader(env), s) == Some(t)
            <==> AllReferencesReadAs(env, s, t)
  {
    TraverseReads(ReferencesReader(env), s, t);
    if |t| == |s| {
      forall i | 0 <= i < |t|
        ensures ReferencesReader(env)(s[i]) == Some(t[i]) <==> ReferencesReadAs(env, s[i], t[i])
      {
        ReferencesRead(env, s[i], t[i]);
      }
    }
  }

  predicate PartsAreRead(env: Environment, a: Archive, p: Parts)
    requires HasParts(a)
  {
    && a.principals.Some? && DeclaredPrincipals(env, a.principals.value) == Some(p.principals)
    && Traverse(NoteReader(env, p.principals), a.notes) == Some(p.notes)
    && Traverse(RevisionReader(env, p.principals, p.notes), a.revisions.value) == Some(p.revisions)
    && Traverse(AclReader(env, p.principals), a.acl) == Some(p.acl)
    && Traverse(AttachmentReader(env, p.principals), a.attachments.value) == Some(p.attachments)
    && Traverse(ReferencesReader(env), a.revisions.value) == Some(p.references)
  }

  lemma {:induction false} PartsListByList(env: Environment, a: Archive, p: Parts)
    requires HasParts(a)
    ensures ReadParts(env, a) == Some(p) <==> PartsAreRead(env, a, p)
  {
  }

  lemma {:induction false} PartsReadAs(env: Environment, a: Archive, p: Parts)
    requires HasParts(a) && NotesOk(p.notes)
    ensures ReadParts(env, a) == Some(p) <==> ReadsAs(env, a, p)
  {
    PartsListByList(env, a, p);
    if a.principals.Some? {
      TableReads(env, a.principals.value, p.principals);
      if DeclaredPrincipals(env, a.principals.value) == Some(p.principals) {
        DeclaredPrincipalsAreDeclared(env, a.principals.value);
        NotesRead(env, p.principals, a.notes, p.notes);
        AclsRead(env, p.principals, a.acl, p.acl);
        RevisionsRead(env, p.principals, p.notes, a.revisions.value, p.revisions);
        AttachmentsRead(env, p.principals, a.attachments.value, p.attachments);
        AllReferencesRead(env, a.revisions.value, p.references);
      }
    }
  }

  // ---------------------------------------------------------------- acceptance

  // The records together, in the order of the archive.
  function Together(p: Parts): Snapshot {
    Snapshot(p.principals, p.notes, p.revisions, p.attachments, Flatten(p.references), p.acl)
  }

  // The records fit together.
  ghost predicate Fits(s: Snapshot) {
    && DistinctNotes(s.notes) && GoodAcl(s.notes, s.acl) && GoodRevisions(s.notes, s.revisions)
    && GoodAttachments(s, s.attachments) && GoodReferences(s, s.attachments, s.references)
  }

  // The same records, with histories, attachments and references in order.
  predicate IsOrdered(s: Snapshot, t: Snapshot) {
    && t.principals == s.principals && t.notes == s.notes && t.acl == s.acl
    && multiset(t.revisions) == multiset(s.revisions) && InOrder(t.revisions, HistoryLe)
    && multiset(t.attachments) == multiset(s.attachments) && InOrder(t.attachments, StoredLe)
    && multiset(t.references) == multiset(s.references) && InOrder(t.references, ReferenceLe)
  }

  lemma {:induction false} PartsOkIff(p: Parts)
    ensures PartsOk(p) <==> Fits(Together(p))
  {
    NotesOkIff(p.notes);
    if NotesOk(p.notes) {
      AclsOkIff(p.notes, p.acl);
      SortedHistoriesOk(p.notes, p.revisions);
      SortedAttachmentsOk(Declaring(p), p.attachments, Flatten(p.references));
      SortMembers(p.revisions, RevisionKey);
      SameSupport(Declaring(p), Together(p), p.attachments, Flatten(p.references));
    }
  }

  lemma {:induction false} SameSupport(s: Snapshot, t: Snapshot, attachments: seq<StoredAttachment>,
                                       references: seq<AttachmentReference>)
    requires s.notes == t.notes && s.principals == t.principals
    requires forall e :: e in s.revisions <==> e in t.revisions
    ensures GoodAttachments(s, attachments) <==> GoodAttachments(t, attachments)
    ensures GoodReferences(s, attachments, references) <==> GoodReferences(t, attachments, references)
  {
  }

  lemma {:induction false} AssembledIsOrdered(p: Parts)
    ensures IsOrdered(Together(p), Assembled(p))
  {
    SortPermutes(p.revisions, RevisionKey);
    SortPermutes(p.attachments, AttachmentIdKey);
    SortPermutes(Flatten(p.references), ReferenceKey);
    HistoriesInOrder(p.revisions);
    StoredInOrder(p.attachments);
    ReferencesInOrder(Flatten(p.references));
  }

  // The records can be read as records that fit together.
  ghost predicate HasGoodRecords(env: Environment, a: Archive)
    requires HasParts(a)
  {
    exists p :: ReadsAs(env, a, p) && Fits(Together(p))
  }

  // The snapshot has the records that the archive is read as, in order.
  ghost predicate HasRecordsOf(env: Environment, a: Archive, s: Snapshot)
    requires HasParts(a)
  {
    exists p :: ReadsAs(env, a, p) && Fits(Together(p)) && IsOrdered(Together(p), s)
  }

  lemma {:induction false} ContentsIff(env: Environment, a: Archive)
    requires HasParts(a)
    ensures Contents(env, a).Some? <==> HasGoodRecords(env, a)
    ensures Contents(env, a).Some? ==> HasRecordsOf(env, a, Contents(env, a).value)
  {
    ContentsIffPartsOk(env, a);
    if Contents(env, a).Some? {
      var p := ReadParts(env, a).value;
      PartsReadAs(env, a, p);
      PartsOkIff(p);
      AssembledIsOrdered(p);
    }
    if HasGoodRecords(env, a) {
      var p :| ReadsAs(env, a, p) && Fits(Together(p));
      PartsOkIff(p);
      PartsReadAs(env, a, p);
    }
  }

  predicate HasCurrentContract(env: Environment, a: Archive) {
    && a.format == "marginalis-archive-18" && a.packageVersion == env.packageVersion && a.profileVersion == 6
    && a.revisions.Some? && a.attachments.Some? && forall i | 0 <= i < |a.notes| :: a.notes[i].provenance.Some?
  }

  lemma {:induction false} ValidateMeans(env: Environment, a: Archive)
    ensures HasCurrentContract(env, a) ==> HasParts(a)
    ensures Validate(env, a) == if HasCurrentContract(env, a) then Contents(env, a) else None
  {
  }

  // An archive is accepted exactly when it has the current contract, with histories, attachments and provenance for
  // every note, and good records; the snapshot has these, in order.
  lemma {:induction false} AcceptedIff(env: Environment, a: Archive)
    ensures Validate(env, a).Some? <==> HasCurrentContract(env, a) && HasGoodRecords(env, a)
    ensures Validate(env, a).Some? ==> HasRecordsOf(env, a, Validate(env, a).value)
  {
    ValidateMeans(env, a);
    if HasCurrentContract(env, a) {
      ContentsIff(env, a);
    }
  }
}
