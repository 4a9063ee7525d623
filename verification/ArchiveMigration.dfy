// An archive that is created from contents that were read is accepted, with the same contents up to
// order, and so is every migrated archive (`migrate_previous_archive` in
// crates/marginalis-archive/src/archive.rs).
module ArchiveMigration {
  import opened Options
  import opened Domain
  import opened Sequences
  import opened Sorting
  import opened Principals
  import opened Snapshots
  import opened Archives
  import opened ArchiveContents
  import opened ArchivePrincipals
  import opened ArchiveReading
  import opened ArchiveRoundTrip
  import opened ArchiveRereading

  // ---------------------------------------------------------------- references in another order

  // The references of one revision, in the order of the sorted references.
  function ReferencesOf(references: seq<AttachmentReference>): NoteRevision -> seq<AttachmentReference> {
    (e: NoteRevision) => Filter(RefersToRevision(e.note.noteId, e.note.revision), references)
  }

  lemma {:induction false} FlattenPermutes<T>(a: seq<seq<T>>, b: seq<seq<T>>)
    requires |a| == |b| && forall i | 0 <= i < |a| :: multiset(a[i]) == multiset(b[i])
    ensures multiset(Flatten(a)) == multiset(Flatten(b))
  {
    if a != [] {
      FlattenPermutes(a[1..], b[1..]);
    }
  }

  lemma {:induction false} FlattenOfInserted<A, B>(f: A -> seq<B>, x: A, s: seq<A>, key: A -> Key)
    ensures multiset(Flatten(Map(f, Insert(x, s, key)))) == multiset(f(x)) + multiset(Flatten(Map(f, s)))
  {
    var inserted := Map(f, Insert(x, s, key));
    if s == [] {
      assert inserted == [f(x)] && inserted[1..] == [];
    } else if KeyLe(key(x), key(s[0])) {
      assert inserted[1..] == Map(f, s);
    } else {
      FlattenOfInserted(f, x, s[1..], key);
      assert inserted[1..] == Map(f, Insert(x, s[1..], key));
      assert Map(f, s)[1..] == Map(f, s[1..]);
    }
  }

  lemma {:induction false} FlattenOfSorted<A, B>(f: A -> seq<B>, s: seq<A>, key: A -> Key)
    ensures multiset(Flatten(Map(f, Sort(s, key)))) == multiset(Flatten(Map(f, s)))
  {
    if s != [] {
      FlattenOfSorted(f, s[1..], key);
      FlattenOfInserted(f, s[0], Sort(s[1..], key), key);
      assert Map(f, s)[1..] == Map(f, s[1..]);
    }
  }

  lemma {:induction false} SortReferences(a: seq<AttachmentReference>, b: seq<AttachmentReference>)
    requires multiset(a) == multiset(b)
    ensures Sort(a, ReferenceKey) == Sort(b, ReferenceKey)
  {
    forall r, q | r in a && q in a && ReferenceKey(r) == ReferenceKey(q)
      ensures r == q
    {
      assert ReferenceKey(r)[0] == ReferenceKey(q)[0] && ReferenceKey(r)[1] == ReferenceKey(q)[1]
             && ReferenceKey(r)[2] == ReferenceKey(q)[2];
      PointsInjective(r.noteId, q.noteId);
      PointsInjective(r.attachmentId, q.attachmentId);
      assert ReferenceKey(r)[1][0] == ReferenceKey(q)[1][0];
    }
    SortOfPermutation(a, b, ReferenceKey);
  }

  // ---------------------------------------------------------------- histories again

  // What the histories of an archive were read as.
  ghost predicate HistoriesRead(env: Environment, p: seq<Principal>, notes: seq<Note>, entries: seq<ArchiveRevision>,
                                read: seq<NoteRevision>, parts: seq<seq<AttachmentReference>>)
  {
    && Traverse(RevisionReader(env, p, notes), entries) == Some(read)
    && Traverse(ReferencesReader(env), entries) == Some(parts)
    && UniqueKeys(read, RevisionKey)
  }

  // The entry that is written for a revision: its attachment list is that of the entry read, sorted.
  lemma {:induction false} WrittenEntry(env: Environment, p: seq<Principal>, notes: seq<Note>,
                                        entries: seq<ArchiveRevision>,
                                        read: seq<NoteRevision>, parts: seq<seq<AttachmentReference>>, j: nat)
    requires Lawful(env) && Declared(p) && HistoriesRead(env, p, notes, entries, read, parts) && j < |read|
    ensures |entries| == |read| == |parts|
    ensures var references := Sort(Flatten(parts), ReferenceKey);
            var written := SortIds(WriteRevision(references, read[j]));
            && written == RevisionNormalizer(env)(entries[j]).(attachmentIds := written.attachmentIds)
            && multiset(written.attachmentIds) == multiset(entries[j].attachmentIds)
            && multiset(ReferencesOf(references)(read[j])) == multiset(parts[j])
            && multiset(Map(ReferenceTo(read[j].note.noteId, read[j].note.revision), written.attachmentIds))
                == multiset(parts[j])
  {
    var references := Sort(Flatten(parts), ReferenceKey);
    TraverseLength(RevisionReader(env, p, notes), entries);
    TraverseLength(ReferencesReader(env), entries);
    EntriesRead(env, p, notes, entries, j);
    EntryWritesBack(env, p, notes, entries, j);
    var ids := entries[j].attachmentIds;
    SortPermutes(ids, TextKey);
    MapPermutes(ReferenceTo(read[j].note.noteId, read[j].note.revision), ids, TextKey);
    PartIsFound(env, p, notes, entries, read, parts, j);
  }

  lemma {:induction false} PartIsFound(env: Environment, p: seq<Principal>, notes: seq<Note>,
                                       entries: seq<ArchiveRevision>,
                                       read: seq<NoteRevision>, parts: seq<seq<AttachmentReference>>, j: nat)
    requires Lawful(env) && HistoriesRead(env, p, notes, entries, read, parts)
    requires |entries| == |read| == |parts| && j < |read|
    ensures multiset(ReferencesOf(Sort(Flatten(parts), ReferenceKey))(read[j])) == multiset(parts[j])
  {
    var n := read[j].note;
    var which := RefersToRevision(n.noteId, n.revision);
    EntriesRead(env, p, notes, entries, j);
    forall i, k | 0 <= i < |parts| && i != j && 0 <= k < |parts[i]|
      ensures !which(parts[i][k])
    {
      EntriesRead(env, p, notes, entries, i);
      DifferentRevisions(read[i], read[j]);
      assert RevisionKey(read[i]) != RevisionKey(read[j]);
    }
    FilterFlatten(which, parts, j);
    SortFilters(which, Flatten(parts), ReferenceKey);
    SortPermutes(parts[j], ReferenceKey);
  }

  // The written histories are in order.
  lemma {:induction false} WrittenHistories(references: seq<AttachmentReference>, read: seq<NoteRevision>)
    ensures CanonicalRevisions(Map(RevisionWriter(references), Sort(read, RevisionKey)))
            == Map(SortIds, Map(RevisionWriter(references), Sort(read, RevisionKey)))
  {
    var sorted := Sort(read, RevisionKey);
    var w := Map(RevisionWriter(references), sorted);
    SortIdempotent(read, RevisionKey);
    SortMaps(RevisionWriter(references), sorted, RevisionKey, ArchiveRevisionKey);
    SortMaps(SortIds, w, ArchiveRevisionKey, ArchiveRevisionKey);
  }

  // The parts that are read from the written histories.
  function PartsAgain(references: seq<AttachmentReference>): NoteRevision -> seq<AttachmentReference> {
    (e: NoteRevision) =>
      Map(ReferenceTo(e.note.noteId, e.note.revision), SortIds(WriteRevision(references, e)).attachmentIds)
  }

  lemma {:induction false} HistoriesReadAgain(env: Environment, p: seq<Principal>, q: seq<Principal>, notes: seq<Note>,
                                              entries: seq<ArchiveRevision>, read: seq<NoteRevision>,
                                              parts: seq<seq<AttachmentReference>>)
    requires Lawful(env) && Declared(p) && SameTable(p, q) && NotesOk(notes)
    requires HistoriesRead(env, p, notes, entries, read, parts)
    ensures var references := Sort(Flatten(parts), ReferenceKey);
            var sorted := Sort(read, RevisionKey);
            var written := CanonicalRevisions(Map(RevisionWriter(references), sorted));
            && Traverse(RevisionReader(env, q, Sort(notes, WrittenNoteKey)), written) == Some(sorted)
            && Traverse(ReferencesReader(env), written) == Some(Map(PartsAgain(references), sorted))
  {
    var references := Sort(Flatten(parts), ReferenceKey);
    var sorted := Sort(read, RevisionKey);
    var written := Map(SortIds, Map(RevisionWriter(references), sorted));
    WrittenHistories(references, read);
    forall i | 0 <= i < |sorted|
      ensures RevisionReader(env, q, Sort(notes, WrittenNoteKey))(written[i]) == Some(sorted[i])
      ensures ReferencesReader(env)(written[i]) == Some(Map(PartsAgain(references), sorted)[i])
    {
      EntryReadsAgain(env, p, q, notes, entries, read, parts, i);
    }
    TraverseAll(RevisionReader(env, q, Sort(notes, WrittenNoteKey)), written, sorted);
    TraverseAll(ReferencesReader(env), written, Map(PartsAgain(references), sorted));
  }

  lemma {:induction false} EntryReadsAgain(env: Environment, p: seq<Principal>, q: seq<Principal>, notes: seq<Note>,
                                           entries: seq<ArchiveRevision>, read: seq<NoteRevision>,
                                           parts: seq<seq<AttachmentReference>>, i: nat)
    requires Lawful(env) && Declared(p) && SameTable(p, q) && NotesOk(notes)
    requires HistoriesRead(env, p, notes, entries, read, parts) && i < |Sort(read, RevisionKey)|
    ensures var references := Sort(Flatten(parts), ReferenceKey);
            var e := Sort(read, RevisionKey)[i];
            var written := SortIds(WriteRevision(references, e));
            && ReadRevision(env, q, Sort(notes, WrittenNoteKey), written) == Some(e)
            && ReadReferences(env, written) == Some(PartsAgain(references)(e))
  {
    var references := Sort(Flatten(parts), ReferenceKey);
    var e := Sort(read, RevisionKey)[i];
    SortMembers(read, RevisionKey);
    assert e in read;
    var j :| 0 <= j < |read| && read[j] == e;
    WrittenEntry(env, p, notes, entries, read, parts, j);
    var written := SortIds(WriteRevision(references, e));
    TraverseAt(RevisionReader(env, p, notes), entries, j);
    TraverseAt(ReferencesReader(env), entries, j);
    RevisionReadsAgain(env, p, q, notes, entries[j], written.attachmentIds);
    ReferencesReadAgain(env, entries[j], written.attachmentIds);
  }

  // All references are read again.
  lemma {:induction false} ReferencesReadTheSame(env: Environment, p: seq<Principal>, notes: seq<Note>,
                                                 entries: seq<ArchiveRevision>,
                                                 read: seq<NoteRevision>, parts: seq<seq<AttachmentReference>>)
    requires Lawful(env) && Declared(p) && HistoriesRead(env, p, notes, entries, read, parts)
    ensures var references := Sort(Flatten(parts), ReferenceKey);
            Sort(Flatten(Map(PartsAgain(references), Sort(read, RevisionKey))), ReferenceKey) == references
  {
    var references := Sort(Flatten(parts), ReferenceKey);
    var again := Map(PartsAgain(references), read);
    TraverseLength(RevisionReader(env, p, notes), entries);
    TraverseLength(ReferencesReader(env), entries);
    forall j | 0 <= j < |read|
      ensures multiset(again[j]) == multiset(parts[j])
    {
      WrittenEntry(env, p, notes, entries, read, parts, j);
    }
    FlattenPermutes(again, parts);
    FlattenOfSorted(PartsAgain(references), read, RevisionKey);
    SortReferences(Flatten(Map(PartsAgain(references), Sort(read, RevisionKey))), Flatten(parts));
  }

  // ---------------------------------------------------------------- the records still fit together

  function AclIdKey(e: NoteAcl): Key { [Points(e.noteId), [e.principal.id]] }

  predicate AclNamesNote(notes: seq<Note>, e: NoteAcl) {
    var note := CurrentNote(notes, e.noteId);
    note.Some? && e.principal.id != note.value.owner.id
  }

  lemma {:induction false} AclsOkMeansUnique(notes: seq<Note>, acl: seq<NoteAcl>)
    ensures AclsOk(notes, acl)
       <==> UniqueKeys(acl, AclIdKey) && forall i | 0 <= i < |acl| :: AclNamesNote(notes, acl[i])
  {
    forall i, j | 0 <= i < j < |acl|
      ensures AclIdKey(acl[i]) == AclIdKey(acl[j])
         <==> acl[i].noteId == acl[j].noteId && acl[i].principal.id == acl[j].principal.id
    {
      DifferentGrants(acl[i], acl[j]);
    }
    if AclsOk(notes, acl) {
      forall i, j | 0 <= i < j < |acl|
        ensures AclIdKey(acl[i]) != AclIdKey(acl[j])
      {
        assert AclOk(notes, acl, j);
      }
      forall i | 0 <= i < |acl|
        ensures AclNamesNote(notes, acl[i])
      {
        assert AclOk(notes, acl, i);
      }
    }
    if UniqueKeys(acl, AclIdKey) && forall i | 0 <= i < |acl| :: AclNamesNote(notes, acl[i]) {
      forall i | 0 <= i < |acl|
        ensures AclOk(notes, acl, i)
      {
        assert AclNamesNote(notes, acl[i]);
        assert forall j | 0 <= j < i :: AclIdKey(acl[j]) != AclIdKey(acl[i]);
      }
    }
  }

  lemma {:induction false} DifferentGrants(a: NoteAcl, b: NoteAcl)
    ensures AclIdKey(a) == AclIdKey(b) <==> a.noteId == b.noteId && a.principal.id == b.principal.id
  {
    if AclIdKey(a) == AclIdKey(b) {
      assert AclIdKey(a)[0] == AclIdKey(b)[0] && AclIdKey(a)[1] == AclIdKey(b)[1];
      PointsInjective(a.noteId, b.noteId);
      assert AclIdKey(a)[1][0] == AclIdKey(b)[1][0];
    }
  }

  lemma {:induction false} OrderedAclsAreOk(notes: seq<Note>, acl: seq<NoteAcl>)
    requires NotesOk(notes) && AclsOk(notes, acl)
    ensures AclsOk(Sort(notes, WrittenNoteKey), Sort(acl, WrittenAclKey))
  {
    var sorted := Sort(acl, WrittenAclKey);
    AclsOkMeansUnique(notes, acl);
    SortPermutes(acl, WrittenAclKey);
    SortMembers(acl, WrittenAclKey);
    UniqueKeysPermute(acl, sorted, AclIdKey);
    forall i | 0 <= i < |sorted|
      ensures AclNamesNote(Sort(notes, WrittenNoteKey), sorted[i])
    {
      assert sorted[i] in acl;
      CurrentInOrder(notes, sorted[i].noteId);
    }
    AclsOkMeansUnique(Sort(notes, WrittenNoteKey), sorted);
  }

  lemma {:induction false} OrderedHistoriesAreOk(notes: seq<Note>, revisions: seq<NoteRevision>)
    requires NotesOk(notes) && RevisionsOk(notes, revisions) && HistoriesOk(notes, revisions)
    ensures RevisionsOk(Sort(notes, WrittenNoteKey), revisions) && HistoriesOk(Sort(notes, WrittenNoteKey), revisions)
  {
    var sorted := Sort(notes, WrittenNoteKey);
    forall i | 0 <= i < |revisions|
      ensures RevisionOk(sorted, revisions, i)
    {
      assert RevisionOk(notes, revisions, i);
      CurrentInOrder(notes, revisions[i].note.noteId);
    }
    SortMembers(notes, WrittenNoteKey);
    forall i | 0 <= i < |sorted|
      ensures HistoryOk(History(revisions, sorted[i].noteId), sorted[i])
    {
      assert sorted[i] in notes;
      var j :| 0 <= j < |notes| && notes[j] == sorted[i];
    }
  }

  lemma {:induction false} OrderedAttachmentsAreOk(s: Snapshot, t: Snapshot, attachments: seq<StoredAttachment>)
    requires NotesOk(s.notes) && t.notes == Sort(s.notes, WrittenNoteKey) && SameTable(s.principals, t.principals)
    requires AttachmentsOk(s, attachments)
    ensures AttachmentsOk(t, attachments)
  {
    forall i | 0 <= i < |attachments|
      ensures AttachmentOk(t, attachments, i)
    {
      assert AttachmentOk(s, attachments, i);
      CurrentInOrder(s.notes, attachments[i].noteId);
      var k :| 0 <= k < |s.principals| && s.principals[k].id == attachments[i].createdBy.id;
      assert t.principals[k].id == attachments[i].createdBy.id;
    }
  }

  lemma {:induction false} SameReferencesAreOk(s: Snapshot, t: Snapshot, attachments: seq<StoredAttachment>,
                                               references: seq<AttachmentReference>)
    requires s.revisions == t.revisions && ReferencesOk(s, attachments, references)
    ensures ReferencesOk(t, attachments, references)
  {
    forall i | 0 <= i < |references|
      ensures ReferenceOk(t, attachments, references, i)
    {
      assert ReferenceOk(s, attachments, references, i);
    }
  }

  // ---------------------------------------------------------------- the archive again

  function PartsInOrder(p: Parts): Parts {
    var references := Sort(Flatten(p.references), ReferenceKey);
    var revisions := Sort(p.revisions, RevisionKey);
    Parts(Map(WithSortedAliases, p.principals), Sort(p.notes, WrittenNoteKey), revisions, Sort(p.acl, WrittenAclKey),
          Sort(p.attachments, AttachmentIdKey), Map(PartsAgain(references), revisions))
  }

  lemma {:induction false} OrderedPartsAreOk(p: Parts)
    requires PartsOk(p) && SameTable(p.principals, Map(WithSortedAliases, p.principals))
    requires Sort(Flatten(PartsInOrder(p).references), ReferenceKey) == Sort(Flatten(p.references), ReferenceKey)
    ensures PartsOk(PartsInOrder(p))
    ensures Assembled(PartsInOrder(p)) == Ordered(Assembled(p))
  {
    var q := PartsInOrder(p);
    SortIdempotent(p.revisions, RevisionKey);
    SortIdempotent(p.attachments, AttachmentIdKey);
    OrderedNotesAreOk(p.notes);
    OrderedAclsAreOk(p.notes, p.acl);
    OrderedHistoriesAreOk(p.notes, q.revisions);
    OrderedAttachmentsAreOk(Declaring(p), Declaring(q), q.attachments);
    SameReferencesAreOk(Declaring(p), Declaring(q), q.attachments, Sort(Flatten(p.references), ReferenceKey));
  }

  // What is written, list by list.
  lemma {:induction false} WrittenLists(env: Environment, a: Archive)
    requires HasParts(a) && Contents(env, a).Some?
    ensures ReadParts(env, a).Some?
    ensures var p := ReadParts(env, a).value;
            var references := Sort(Flatten(p.references), ReferenceKey);
            Create(env, Contents(env, a).value)
            == Archive(ARCHIVE_FORMAT, env.packageVersion, ARCHIVE_NOTE_PROFILE_VERSION,
                       Some(CanonicalPrincipals(a.principals.value)),
                       Sort(Map(WriteNote, p.notes), NoteKey),
                       Some(CanonicalRevisions(Map(RevisionWriter(references), Sort(p.revisions, RevisionKey)))),
                       Some(Sort(Map(AttachmentWriter(env), Sort(p.attachments, AttachmentIdKey)),
                                 ArchiveAttachmentKey)),
                       Sort(Map(WriteAcl, p.acl), ArchiveAclKey))
  {
    ContentsIffPartsOk(env, a);
    PrincipalsReadBack(env, a.principals.value);
  }

  lemma {:induction false} PartsReadAgain(env: Environment, a: Archive)
    requires Lawful(env) && HasParts(a) && HasProvenance(a) && Contents(env, a).Some?
    ensures var s := Contents(env, a).value;
            HasParts(Create(env, s)) && ReadParts(env, Create(env, s)) == Some(PartsInOrder(ReadParts(env, a).value))
  {
    WrittenLists(env, a);
    ReadPartsResolve(env, a);
    ContentsIffPartsOk(env, a);
    var p := ReadParts(env, a).value;
    TableInOrder(env, a.principals.value);
    RecordsReadAgain(env, a, p, Map(WithSortedAliases, p.principals));
    PartsOfLists(env, Create(env, Contents(env, a).value), PartsInOrder(p));
  }

  lemma {:induction false} PartsOfLists(env: Environment, b: Archive, q: Parts)
    requires HasParts(b) && b.principals.Some? && DeclaredPrincipals(env, b.principals.value) == Some(q.principals)
    requires Traverse(NoteReader(env, q.principals), b.notes) == Some(q.notes)
    requires Traverse(RevisionReader(env, q.principals, q.notes), b.revisions.value) == Some(q.revisions)
    requires Traverse(AclReader(env, q.principals), b.acl) == Some(q.acl)
    requires Traverse(AttachmentReader(env, q.principals), b.attachments.value) == Some(q.attachments)
    requires Traverse(ReferencesReader(env), b.revisions.value) == Some(q.references)
    ensures ReadParts(env, b) == Some(q)
  {
  }

  lemma {:induction false} RecordsReadAgain(env: Environment, a: Archive, p: Parts, q: seq<Principal>)
    requires Lawful(env) && HasParts(a) && HasProvenance(a) && ReadParts(env, a) == Some(p)
    requires Declared(p.principals) && PartsOk(p) && SameTable(p.principals, q)
    ensures Traverse(NoteReader(env, q), Sort(Map(WriteNote, p.notes), NoteKey)) == Some(Sort(p.notes, WrittenNoteKey))
    ensures Traverse(AclReader(env, q), Sort(Map(WriteAcl, p.acl), ArchiveAclKey)) == Some(Sort(p.acl, WrittenAclKey))
    ensures var sorted := Sort(p.attachments, AttachmentIdKey);
            Traverse(AttachmentReader(env, q), Sort(Map(AttachmentWriter(env), sorted), ArchiveAttachmentKey))
                == Some(sorted)
    ensures var references := Sort(Flatten(p.references), ReferenceKey);
            var sorted := Sort(p.revisions, RevisionKey);
            var written := CanonicalRevisions(Map(RevisionWriter(references), sorted));
            && Traverse(RevisionReader(env, q, Sort(p.notes, WrittenNoteKey)), written) == Some(sorted)
            && Traverse(ReferencesReader(env), written) == Some(Map(PartsAgain(references), sorted))
  {
    NotesReadAgain(env, p.principals, q, a.notes);
    AclsReadAgain(env, p.principals, q, a.acl);
    AttachmentsReadAgain(env, p.principals, q, a.attachments.value);
    RevisionKeysAreUnique(p.notes, p.revisions);
    HistoriesReadAgain(env, p.principals, q, p.notes, a.revisions.value, p.revisions, p.references);
  }

  // What is written of contents that were read is read as the same contents, in canonical order.
  lemma {:induction false} ReadingWhatWasWritten(env: Environment, a: Archive)
    requires Lawful(env) && HasParts(a) && HasProvenance(a) && Contents(env, a).Some?
    ensures Validate(env, Create(env, Contents(env, a).value)) == Some(Ordered(Contents(env, a).value))
  {
    ContentsIffPartsOk(env, a);
    ReadPartsResolve(env, a);
    var p := ReadParts(env, a).value;
    PartsReadAgain(env, a);
    TableInOrder(env, a.principals.value);
    RevisionKeysAreUnique(p.notes, p.revisions);
    ReferencesReadTheSame(env, p.principals, p.notes, a.revisions.value, p.revisions, p.references);
    OrderedPartsAreOk(p);
    WrittenLists(env, a);
    WrittenHasProvenance(Map(WriteNote, p.notes));
    ValidatesParts(env, Create(env, Contents(env, a).value), PartsInOrder(p));
  }

  lemma {:induction false} ValidatesParts(env: Environment, b: Archive, q: Parts)
    requires b.format == ARCHIVE_FORMAT && b.packageVersion == env.packageVersion
             && b.profileVersion == ARCHIVE_NOTE_PROFILE_VERSION
    requires HasProvenance(b) && HasParts(b) && ReadParts(env, b) == Some(q) && PartsOk(q)
    ensures Validate(env, b) == Some(Assembled(q))
  {
    ContentsIffPartsOk(env, b);
  }

  lemma {:induction false} WrittenHasProvenance(notes: seq<ArchiveNote>)
    requires forall i | 0 <= i < |notes| :: notes[i].provenance.Some?
    ensures forall i | 0 <= i < |Sort(notes, NoteKey)| :: Sort(notes, NoteKey)[i].provenance.Some?
  {
    SortMembers(notes, NoteKey);
    forall i | 0 <= i < |Sort(notes, NoteKey)|
      ensures Sort(notes, NoteKey)[i].provenance.Some?
    {
      assert Sort(notes, NoteKey)[i] in notes;
    }
  }

  // A migrated archive is the given one under the current contract, in canonical order and normal form;
  // it is accepted, with the contents of the given one.
  lemma {:induction false} MigratedIsAccepted(env: Environment, a: Archive)
    requires Lawful(env) && Migrate(env, a).Migrated?
    ensures Migrate(env, a).archive == Canonical(Normalized(env, a))
    ensures SameContent(Normalized(env, a), Migrate(env, a).archive)
    ensures Validate(env, Migrate(env, a).archive) == Some(Ordered(Contents(env, a).value))
  {
    WritingWhatWasRead(env, a);
    ReadingWhatWasWritten(env, a);
    CanonicalKeepsContent(Normalized(env, a));
  }

  // ---------------------------------------------------------------- which archives migrate

  // The archive under the current contract, otherwise as it is.
  function UnderCurrentContract(env: Environment, a: Archive): Archive {
    a.(format := ARCHIVE_FORMAT, packageVersion := env.packageVersion, profileVersion := ARCHIVE_NOTE_PROFILE_VERSION)
  }

  predicate HasPreviousContract(a: Archive) {
    a.format == "marginalis-archive-18" && a.packageVersion == "0.47.0" && a.profileVersion == 6
  }

  lemma {:induction false} ContractIsNoContent(env: Environment, a: Archive)
    requires HasParts(a)
    ensures Contents(env, UnderCurrentContract(env, a)) == Contents(env, a)
  {
  }

  // An archive of the preceding contract migrates exactly when, under the current contract, it would be accepted
  // and declares its principals.
  lemma {:induction false} MigratesIff(env: Environment, a: Archive)
    ensures Migrate(env, a).Migrated?
            <==> HasPreviousContract(a) && a.principals.Some? && Validate(env, UnderCurrentContract(env, a)).Some?
    ensures Migrate(env, a).Migrated?
            <==> && HasPreviousContract(a) && a.principals.Some? && a.revisions.Some? && a.attachments.Some?
                 && HasProvenance(a) && Contents(env, a).Some?
  {
    if HasParts(a) {
      ContractIsNoContent(env, a);
    }
  }

  // Otherwise the first of these that does not hold is reported: the contract, its lists, the provenance of
  // every note (with the position of the first note without), the contents.
  lemma {:induction false} MigrationErrors(env: Environment, a: Archive)
    ensures Migrate(env, a) == UnsupportedContract <==> !HasPreviousContract(a)
    ensures Migrate(env, a) == MissingParts
            <==> HasPreviousContract(a) && (a.principals.None? || a.revisions.None? || a.attachments.None?)
    ensures forall position: nat ::
              Migrate(env, a) == MissingProvenance(position)
              <==> && HasPreviousContract(a) && a.principals.Some? && a.revisions.Some? && a.attachments.Some?
                   && 1 <= position <= |a.notes| && a.notes[position - 1].provenance.None?
                   && forall i | 0 <= i < position - 1 :: a.notes[i].provenance.Some?
    ensures Migrate(env, a) == InvalidContents
            <==> && HasPreviousContract(a) && a.principals.Some? && a.revisions.Some? && a.attachments.Some?
                 && HasProvenance(a) && Contents(env, a).None?
  {
  }
}
