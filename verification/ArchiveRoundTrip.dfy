// Reading an accepted archive and writing it again yields its canonical form, up to the printed form of
// IDs and the normal form of file names (`create_archive` after `validate_archive` in
// crates/marginalis-archive/src/archive.rs).
module ArchiveRoundTrip {
  import opened Options
  import opened Domain
  import opened Sequences
  import opened Sorting
  import opened Principals
  import opened Snapshots
  import opened Archives
  import opened ArchiveContents
  import opened ArchivePrincipals
  import opened ArchiveReading

  // ---------------------------------------------------------------- normal form

  function PrintedId(env: Environment, id: string): string {
    if env.parseId(id).Some? then env.parseId(id).value else id
  }

  function NoteNormalizer(env: Environment): ArchiveNote -> ArchiveNote {
    (n: ArchiveNote) => n.(noteId := PrintedId(env, n.noteId))
  }

  function RevisionNormalizer(env: Environment): ArchiveRevision -> ArchiveRevision {
    (e: ArchiveRevision) => e.(noteId := PrintedId(env, e.noteId))
  }

  function AttachmentNormalizer(env: Environment): ArchiveAttachment -> ArchiveAttachment {
    (a: ArchiveAttachment) =>
      a.(attachmentId := PrintedId(env, a.attachmentId), noteId := PrintedId(env, a.noteId),
         fileName := env.trimmedNfc(a.fileName))
  }

  function AclNormalizer(env: Environment): ArchiveAcl -> ArchiveAcl {
    (e: ArchiveAcl) => e.(noteId := PrintedId(env, e.noteId))
  }

  // The archive under the current contract, with printed IDs and normalized file names.
  function Normalized(env: Environment, a: Archive): Archive
    requires HasParts(a)
  {
    Archive(ARCHIVE_FORMAT, env.packageVersion, ARCHIVE_NOTE_PROFILE_VERSION, a.principals,
            Map(NoteNormalizer(env), a.notes),
            Some(Map(RevisionNormalizer(env), a.revisions.value)),
            Some(Map(AttachmentNormalizer(env), a.attachments.value)),
            Map(AclNormalizer(env), a.acl))
  }

  // ---------------------------------------------------------------- one record

  lemma {:induction false} ReviewReadsBack(env: Environment, principals: seq<Principal>, owner: PrincipalRef,
                                           f: ReviewFields)
    requires Declared(principals) && ReadReview(env, principals, owner, f).Some?
    ensures WriteReview(ReadReview(env, principals, owner, f).value) == f
  {
    if f.issuer.Some? && f.subject.Some? {
      var identity := Identity(f.issuer.value, f.subject.value);
      if RefOf(env, principals, identity).Some? {
        RefResolves(env, principals, identity);
      }
    }
  }

  lemma {:induction false} NoteReadsBack(env: Environment, principals: seq<Principal>, n: ArchiveNote)
    requires Declared(principals) && ReadNote(env, principals, n).Some? && n.provenance.Some?
    ensures WriteNote(ReadNote(env, principals, n).value) == NoteNormalizer(env)(n)
  {
    RefResolves(env, principals, n.creator);
    ReviewReadsBack(env, principals, RefOf(env, principals, n.creator).value, n.provenance.value.review);
  }

  lemma {:induction false} AclReadsBack(env: Environment, principals: seq<Principal>, e: ArchiveAcl)
    requires Declared(principals) && ReadAcl(env, principals, e).Some?
    ensures WriteAcl(ReadAcl(env, principals, e).value) == AclNormalizer(env)(e)
  {
    RefResolves(env, principals, e.identity);
  }

  lemma {:induction false} AttachmentReadsBack(env: Environment, principals: seq<Principal>, a: ArchiveAttachment)
    requires Lawful(env) && Declared(principals) && ReadAttachment(env, principals, a).Some?
    ensures AttachmentWriter(env)(ReadAttachment(env, principals, a).value) == AttachmentNormalizer(env)(a)
  {
    RefResolves(env, principals, a.createdBy);
  }

  // Up to its attachment list, which the references give back.
  lemma {:induction false} RevisionReadsBack(env: Environment, principals: seq<Principal>, notes: seq<Note>,
                                             e: ArchiveRevision,
                                             references: seq<AttachmentReference>)
    requires Declared(principals) && ReadRevision(env, principals, notes, e).Some?
    ensures var w := WriteRevision(references, ReadRevision(env, principals, notes, e).value);
            w == RevisionNormalizer(env)(e).(attachmentIds := w.attachmentIds)
  {
    RefResolves(env, principals, e.changedBy);
    var current := CurrentNote(notes, env.parseId(e.noteId).value);
    ReviewReadsBack(env, principals, current.value.owner, e.review);
  }

  // ---------------------------------------------------------------- attachment lists

  // An accepted list of attachment IDs is printed: it is, in some order, what the note parser found.
  lemma {:induction false} ListedIdsArePrinted(env: Environment, e: ArchiveRevision)
    requires Lawful(env) && ReadReferences(env, e).Some?
    ensures Traverse(env.parseId, e.attachmentIds) == Some(e.attachmentIds)
  {
    var draft := env.validate(e.source).value;
    SortMembers(e.attachmentIds, TextKey);
    SortMembers(draft.attachmentIds, TextKey);
    DedupMembers(Sort(draft.attachmentIds, TextKey));
    forall i | 0 <= i < |e.attachmentIds|
      ensures env.parseId(e.attachmentIds[i]) == Some(e.attachmentIds[i])
    {
      assert e.attachmentIds[i] in Sort(e.attachmentIds, TextKey);
      assert e.attachmentIds[i] in draft.attachmentIds;
      assert PrintedIds(env, draft.attachmentIds);
    }
    TraverseAll(env.parseId, e.attachmentIds, e.attachmentIds);
  }

  lemma {:induction false} MapToReferences(noteId: string, revision: Revision, ids: seq<string>)
    ensures Map(AttachmentIdOf, Map(ReferenceTo(noteId, revision), ids)) == ids
  {
  }

  // Filtering a concatenation for the elements of one part gives that part.
  lemma {:induction false} FilterFlatten<T>(p: T -> bool, parts: seq<seq<T>>, i: nat)
    requires i < |parts| && forall k | 0 <= k < |parts[i]| :: p(parts[i][k])
    requires forall j, k | 0 <= j < |parts| && j != i && 0 <= k < |parts[j]| :: !p(parts[j][k])
    ensures Filter(p, Flatten(parts)) == parts[i]
  {
    FilterSplits(p, parts[0], Flatten(parts[1..]));
    if i == 0 {
      FilterAll(p, parts[0]);
      FilterFlattenNone(p, parts[1..]);
    } else {
      FilterNone(p, parts[0]);
      assert forall j | 0 <= j < |parts[1..]| :: parts[1..][j] == parts[j + 1];
      FilterFlatten(p, parts[1..], i - 1);
    }
  }

  lemma {:induction false} FilterFlattenNone<T>(p: T -> bool, parts: seq<seq<T>>)
    requires forall j, k | 0 <= j < |parts| && 0 <= k < |parts[j]| :: !p(parts[j][k])
    ensures Filter(p, Flatten(parts)) == []
  {
    if parts != [] {
      FilterSplits(p, parts[0], Flatten(parts[1..]));
      FilterNone(p, parts[0]);
      assert forall j | 0 <= j < |parts[1..]| :: parts[1..][j] == parts[j + 1];
      FilterFlattenNone(p, parts[1..]);
    }
  }

  // The references of a revision are found again among all sorted references.
  lemma {:induction false} ReferencesReadBack(parts: seq<seq<AttachmentReference>>, i: nat, noteId: string,
                                              revision: Revision, ids: seq<string>)
    requires i < |parts| && parts[i] == Map(ReferenceTo(noteId, revision), ids)
    requires forall j, k | 0 <= j < |parts| && j != i && 0 <= k < |parts[j]| ::
               !(parts[j][k].noteId == noteId && parts[j][k].revision == revision)
    ensures multiset(Map(AttachmentIdOf,
                         Filter(RefersToRevision(noteId, revision), Sort(Flatten(parts), ReferenceKey))))
                             == multiset(ids)
  {
    var p := RefersToRevision(noteId, revision);
    SortFilters(p, Flatten(parts), ReferenceKey);
    FilterFlatten(p, parts, i);
    MapPermutes(AttachmentIdOf, parts[i], ReferenceKey);
    MapToReferences(noteId, revision, ids);
  }

  // ---------------------------------------------------------------- all records of one kind

  lemma {:induction false} NotesReadBack(env: Environment, principals: seq<Principal>, notes: seq<ArchiveNote>)
    requires Declared(principals) && Traverse(NoteReader(env, principals), notes).Some?
    requires forall i | 0 <= i < |notes| :: notes[i].provenance.Some?
    ensures Map(WriteNote, Traverse(NoteReader(env, principals), notes).value) == Map(NoteNormalizer(env), notes)
  {
    TraverseLength(NoteReader(env, principals), notes);
    forall i | 0 <= i < |notes|
      ensures WriteNote(Traverse(NoteReader(env, principals), notes).value[i]) == NoteNormalizer(env)(notes[i])
    {
      TraverseAt(NoteReader(env, principals), notes, i);
      NoteReadsBack(env, principals, notes[i]);
    }
  }

  lemma {:induction false} AclsReadBack(env: Environment, principals: seq<Principal>, acl: seq<ArchiveAcl>)
    requires Declared(principals) && Traverse(AclReader(env, principals), acl).Some?
    ensures Map(WriteAcl, Traverse(AclReader(env, principals), acl).value) == Map(AclNormalizer(env), acl)
  {
    TraverseLength(AclReader(env, principals), acl);
    forall i | 0 <= i < |acl|
      ensures WriteAcl(Traverse(AclReader(env, principals), acl).value[i]) == AclNormalizer(env)(acl[i])
    {
      TraverseAt(AclReader(env, principals), acl, i);
      AclReadsBack(env, principals, acl[i]);
    }
  }

  lemma {:induction false} AttachmentsReadBack(env: Environment, principals: seq<Principal>,
                                               attachments: seq<ArchiveAttachment>)
    requires Lawful(env) && Declared(principals) && Traverse(AttachmentReader(env, principals), attachments).Some?
    ensures Map(AttachmentWriter(env), Traverse(AttachmentReader(env, principals), attachments).value)
            == Map(AttachmentNormalizer(env), attachments)
  {
    var read := Traverse(AttachmentReader(env, principals), attachments).value;
    TraverseLength(AttachmentReader(env, principals), attachments);
    forall i | 0 <= i < |attachments|
      ensures AttachmentWriter(env)(read[i]) == AttachmentNormalizer(env)(attachments[i])
    {
      TraverseAt(AttachmentReader(env, principals), attachments, i);
      AttachmentReadsBack(env, principals, attachments[i]);
    }
  }

  // Sorting while reading makes no difference once the result is sorted.
  lemma {:induction false} SortedAttachmentsReadBack(env: Environment, principals: seq<Principal>,
                                                     attachments: seq<ArchiveAttachment>)
    requires Lawful(env) && Declared(principals) && Traverse(AttachmentReader(env, principals), attachments).Some?
    ensures var read := Traverse(AttachmentReader(env, principals), attachments).value;
            Sort(Map(AttachmentWriter(env), Sort(read, AttachmentIdKey)), ArchiveAttachmentKey)
            == Sort(Map(AttachmentNormalizer(env), attachments), ArchiveAttachmentKey)
  {
    var read := Traverse(AttachmentReader(env, principals), attachments).value;
    AttachmentsReadBack(env, principals, attachments);
    SortMaps(AttachmentWriter(env), read, AttachmentIdKey, ArchiveAttachmentKey);
    SortIdempotent(Map(AttachmentWriter(env), read), ArchiveAttachmentKey);
  }

  // Revisions that were accepted together have different keys.
  lemma {:induction false} RevisionKeysAreUnique(notes: seq<Note>, revisions: seq<NoteRevision>)
    requires RevisionsOk(notes, Sort(revisions, RevisionKey))
    ensures UniqueKeys(revisions, RevisionKey)
  {
    var sorted := Sort(revisions, RevisionKey);
    forall i, j | 0 <= i < j < |sorted|
      ensures RevisionKey(sorted[i]) != RevisionKey(sorted[j])
    {
      assert RevisionOk(notes, sorted, j);
      DifferentRevisions(sorted[i], sorted[j]);
    }
    UniqueKeysOfSort(revisions, RevisionKey);
  }

  lemma {:induction false} DifferentRevisions(a: NoteRevision, b: NoteRevision)
    ensures RevisionKey(a) == RevisionKey(b) <==> a.note.noteId == b.note.noteId && a.note.revision == b.note.revision
  {
    if RevisionKey(a) == RevisionKey(b) {
      assert RevisionKey(a)[0] == RevisionKey(b)[0] && RevisionKey(a)[1] == RevisionKey(b)[1];
      PointsInjective(a.note.noteId, b.note.noteId);
      assert RevisionKey(a)[1][0] == RevisionKey(b)[1][0];
    }
  }

  // What reading gave for one entry of the histories.
  predicate EntryRead(env: Environment, e: ArchiveRevision, r: NoteRevision, references: seq<AttachmentReference>) {
    && env.parseId(e.noteId) == Some(r.note.noteId) && e.revision == r.note.revision
    && references == Map(ReferenceTo(r.note.noteId, r.note.revision), e.attachmentIds)
  }

  lemma {:induction false} EntriesRead(env: Environment, principals: seq<Principal>, notes: seq<Note>,
                                       entries: seq<ArchiveRevision>, i: nat)
    requires Lawful(env) && i < |entries|
    requires Traverse(RevisionReader(env, principals, notes), entries).Some?
             && Traverse(ReferencesReader(env), entries).Some?
    ensures |Traverse(RevisionReader(env, principals, notes), entries).value| == |entries|
    ensures |Traverse(ReferencesReader(env), entries).value| == |entries|
    ensures EntryRead(env, entries[i], Traverse(RevisionReader(env, principals, notes), entries).value[i],
                      Traverse(ReferencesReader(env), entries).value[i])
  {
    TraverseAt(RevisionReader(env, principals, notes), entries, i);
    TraverseAt(ReferencesReader(env), entries, i);
    ListedIdsArePrinted(env, entries[i]);
  }

  lemma {:induction false} EntryWritesBack(env: Environment, principals: seq<Principal>, notes: seq<Note>,
                                           entries: seq<ArchiveRevision>, i: nat)
    requires Lawful(env) && Declared(principals) && i < |entries|
    requires Traverse(RevisionReader(env, principals, notes), entries).Some?
             && Traverse(ReferencesReader(env), entries).Some?
    requires UniqueKeys(Traverse(RevisionReader(env, principals, notes), entries).value, RevisionKey)
    ensures |Traverse(RevisionReader(env, principals, notes), entries).value| == |entries|
    ensures var read := Traverse(RevisionReader(env, principals, notes), entries).value;
            var references := Sort(Flatten(Traverse(ReferencesReader(env), entries).value), ReferenceKey);
            SortIds(WriteRevision(references, read[i])) == SortIds(RevisionNormalizer(env)(entries[i]))
  {
    var read := Traverse(RevisionReader(env, principals, notes), entries).value;
    var parts: seq<seq<AttachmentReference>> := Traverse(ReferencesReader(env), entries).value;
    var references := Sort(Flatten(parts), ReferenceKey);
    EntriesRead(env, principals, notes, entries, i);
    var n := read[i].note;
    forall j, k | 0 <= j < |parts| && j != i && 0 <= k < |parts[j]|
      ensures !(parts[j][k].noteId == n.noteId && parts[j][k].revision == n.revision)
    {
      EntriesRead(env, principals, notes, entries, j);
      DifferentRevisions(read[i], read[j]);
      assert RevisionKey(read[i]) != RevisionKey(read[j]);
    }
    ReferencesReadBack(parts, i, n.noteId, n.revision, entries[i].attachmentIds);
    TraverseAt(RevisionReader(env, principals, notes), entries, i);
    RevisionReadsBack(env, principals, notes, entries[i], references);
    SortTexts(WriteRevision(references, read[i]).attachmentIds, entries[i].attachmentIds);
  }

  lemma {:induction false} SortedRevisionsReadBack(env: Environment, principals: seq<Principal>, notes: seq<Note>,
                                                   entries: seq<ArchiveRevision>)
    requires Lawful(env) && Declared(principals)
    requires Traverse(RevisionReader(env, principals, notes), entries).Some?
             && Traverse(ReferencesReader(env), entries).Some?
    requires RevisionsOk(notes, Sort(Traverse(RevisionReader(env, principals, notes), entries).value, RevisionKey))
    ensures var read := Traverse(RevisionReader(env, principals, notes), entries).value;
            var references := Sort(Flatten(Traverse(ReferencesReader(env), entries).value), ReferenceKey);
            CanonicalRevisions(Map(RevisionWriter(references), Sort(read, RevisionKey)))
            == CanonicalRevisions(Map(RevisionNormalizer(env), entries))
  {
    var read := Traverse(RevisionReader(env, principals, notes), entries).value;
    var references := Sort(Flatten(Traverse(ReferencesReader(env), entries).value), ReferenceKey);
    RevisionKeysAreUnique(notes, read);
    TraverseLength(RevisionReader(env, principals, notes), entries);
    var written, normal := Map(RevisionWriter(references), read), Map(RevisionNormalizer(env), entries);
    forall i | 0 <= i < |entries|
      ensures SortIds(written[i]) == SortIds(normal[i])
    {
      EntryWritesBack(env, principals, notes, entries, i);
    }
    assert Map(SortIds, written) == Map(SortIds, normal);
    SortMaps(RevisionWriter(references), read, RevisionKey, ArchiveRevisionKey);
    CanonicalOfSortedRevisions(written);
  }

  lemma {:induction false} CanonicalOfSortedRevisions(revisions: seq<ArchiveRevision>)
    ensures CanonicalRevisions(Sort(revisions, ArchiveRevisionKey)) == CanonicalRevisions(revisions)
  {
    SortMaps(SortIds, revisions, ArchiveRevisionKey, ArchiveRevisionKey);
    SortIdempotent(Map(SortIds, revisions), ArchiveRevisionKey);
  }

  // ---------------------------------------------------------------- principals

  lemma {:induction false} PrincipalWritesBack(p: Principal, entry: ArchivePrincipal)
    requires p.primary == entry.primary && p.identities == IdentitiesOf(entry)
             && DistinctIdentities(IdentitiesOf(entry))
    ensures WritePrincipal(p) == entry
  {
    var aliases := entry.aliases;
    forall i | 0 <= i < |aliases|
      ensures aliases[i] != entry.primary
    {
      assert IdentitiesOf(entry)[0] == entry.primary && IdentitiesOf(entry)[i + 1] == aliases[i];
    }
    FilterAll(IsAlias(p), aliases);
    FilterCons(IsAlias(p), entry.primary, aliases);
  }

  lemma {:induction false} TableWritesBack(entries: seq<ArchivePrincipal>)
    requires DistinctIdentities(AllIdentities(entries))
    ensures Map(WritePrincipal, Numbered(entries)) == entries
  {
    forall i | 0 <= i < |entries|
      ensures WritePrincipal(Numbered(entries)[i]) == entries[i]
    {
      EntryIsDistinct(entries, i);
      PrincipalWritesBack(Numbered(entries)[i], entries[i]);
    }
  }

  lemma {:induction false} PrincipalsReadBack(env: Environment, entries: seq<ArchivePrincipal>)
    requires DeclaredPrincipals(env, entries).Some?
    ensures CanonicalPrincipals(Map(WritePrincipal, DeclaredPrincipals(env, entries).value))
            == CanonicalPrincipals(entries)
  {
    DeclaredPrincipalsAreDeclared(env, entries);
    TableWritesBack(Sort(entries, PrincipalKey));
    SortMaps(SortAliases, entries, PrincipalKey, PrincipalKey);
    SortIdempotent(Map(SortAliases, entries), PrincipalKey);
  }

  // ---------------------------------------------------------------- the round trip

  // Although principals are renumbered and every owner, reviewer and editor is looked up in the table,
  // writing what was read gives the normalized archive in canonical order.
  lemma {:induction false} WritingWhatWasRead(env: Environment, a: Archive)
    requires Lawful(env) && HasParts(a) && HasProvenance(a) && Contents(env, a).Some?
    ensures Create(env, Contents(env, a).value) == Canonical(Normalized(env, a))
  {
    ContentsIffPartsOk(env, a);
    var p := ReadParts(env, a).value;
    ReadPartsResolve(env, a);
    PrincipalsReadBack(env, a.principals.value);
    NotesReadBack(env, p.principals, a.notes);
    SortedRevisionsReadBack(env, p.principals, p.notes, a.revisions.value);
    SortedAttachmentsReadBack(env, p.principals, a.attachments.value);
    AclsReadBack(env, p.principals, a.acl);
  }

  lemma {:induction false} ArchiveRoundTrip(env: Environment, a: Archive)
    requires Lawful(env) && Validate(env, a).Some?
    ensures Create(env, Validate(env, a).value) == Canonical(Normalized(env, a))
  {
    WritingWhatWasRead(env, a);
  }

  // IDs are in printed form, file names are trimmed and normalized.
  predicate IsNormal(env: Environment, a: Archive)
    requires HasParts(a)
  {
    && (forall i | 0 <= i < |a.notes| :: PrintedId(env, a.notes[i].noteId) == a.notes[i].noteId)
    && (forall i | 0 <= i < |a.revisions.value| ::
        PrintedId(env, a.revisions.value[i].noteId) == a.revisions.value[i].noteId)
    && (forall i | 0 <= i < |a.attachments.value| ::
        AttachmentNormalizer(env)(a.attachments.value[i]) == a.attachments.value[i])
    && forall i | 0 <= i < |a.acl| :: PrintedId(env, a.acl[i].noteId) == a.acl[i].noteId
  }

  // A map that is applied twice with the effect of once, and permutes a list, fixes its elements.
  lemma {:induction false} FixedByPermutation<T(!new)>(f: T -> T, s: seq<T>)
    requires forall x :: f(f(x)) == f(x)
    requires multiset(Map(f, s)) == multiset(s)
    ensures Map(f, s) == s
  {
    PermutationMembers(Map(f, s), s);
    forall i | 0 <= i < |s|
      ensures f(s[i]) == s[i]
    {
      assert s[i] in s;
      var j := MapIndex(f, s, s[i]);
    }
  }

  // The archive comes back in canonical order, unchanged, exactly when it was normal.
  lemma {:induction false} RoundTripIffNormal(env: Environment, a: Archive)
    requires Lawful(env) && Validate(env, a).Some?
    ensures Create(env, Validate(env, a).value) == Canonical(a) <==> IsNormal(env, a)
  {
    ArchiveRoundTrip(env, a);
    if IsNormal(env, a) {
      NormalIsFixed(env, a);
    }
    if Canonical(Normalized(env, a)) == Canonical(a) {
      FixedIsNormal(env, a);
    }
  }

  lemma {:induction false} NormalIsFixed(env: Environment, a: Archive)
    requires Validate(env, a).Some? && IsNormal(env, a)
    ensures Normalized(env, a) == a
  {
    assert Map(NoteNormalizer(env), a.notes) == a.notes;
    assert Map(RevisionNormalizer(env), a.revisions.value) == a.revisions.value;
    assert Map(AttachmentNormalizer(env), a.attachments.value) == a.attachments.value;
    assert Map(AclNormalizer(env), a.acl) == a.acl;
  }

  lemma {:induction false} FixedIsNormal(env: Environment, a: Archive)
    requires Lawful(env) && HasParts(a) && Canonical(Normalized(env, a)) == Canonical(a)
    ensures IsNormal(env, a)
  {
    CanonicalIffSameContent(Normalized(env, a), a);
    NotesAreFixed(env, a.notes);
    RevisionIdsAreFixed(env, a.revisions.value);
    AttachmentsAreFixed(env, a.attachments.value);
    AclIsFixed(env, a.acl);
  }

  lemma {:induction false} PrintedTwice(env: Environment, id: string)
    requires Lawful(env)
    ensures PrintedId(env, PrintedId(env, id)) == PrintedId(env, id)
  {
  }

  lemma {:induction false} NotesAreFixed(env: Environment, notes: seq<ArchiveNote>)
    requires Lawful(env) && multiset(Map(NoteNormalizer(env), notes)) == multiset(notes)
    ensures forall i | 0 <= i < |notes| :: PrintedId(env, notes[i].noteId) == notes[i].noteId
  {
    FixedByPermutation(NoteNormalizer(env), notes);
    assert forall i | 0 <= i < |notes| :: NoteNormalizer(env)(notes[i]) == notes[i];
  }

  lemma {:induction false} AttachmentsAreFixed(env: Environment, attachments: seq<ArchiveAttachment>)
    requires Lawful(env) && multiset(Map(AttachmentNormalizer(env), attachments)) == multiset(attachments)
    ensures forall i | 0 <= i < |attachments| :: AttachmentNormalizer(env)(attachments[i]) == attachments[i]
  {
    forall a
      ensures AttachmentNormalizer(env)(AttachmentNormalizer(env)(a)) == AttachmentNormalizer(env)(a)
    {
      PrintedTwice(env, a.attachmentId);
      PrintedTwice(env, a.noteId);
      assert env.trimmedNfc(env.trimmedNfc(a.fileName)) == env.trimmedNfc(a.fileName);
    }
    FixedByPermutation(AttachmentNormalizer(env), attachments);
  }

  lemma {:induction false} AclIsFixed(env: Environment, acl: seq<ArchiveAcl>)
    requires Lawful(env) && multiset(Map(AclNormalizer(env), acl)) == multiset(acl)
    ensures forall i | 0 <= i < |acl| :: PrintedId(env, acl[i].noteId) == acl[i].noteId
  {
    FixedByPermutation(AclNormalizer(env), acl);
    assert forall i | 0 <= i < |acl| :: AclNormalizer(env)(acl[i]) == acl[i];
  }

  lemma {:induction false} RevisionIdsAreFixed(env: Environment, revisions: seq<ArchiveRevision>)
    requires Lawful(env)
    requires multiset(Map(BagOfRevision, Map(RevisionNormalizer(env), revisions)))
             == multiset(Map(BagOfRevision, revisions))
    ensures forall i | 0 <= i < |revisions| :: PrintedId(env, revisions[i].noteId) == revisions[i].noteId
  {
    var normal := Map(RevisionNormalizer(env), revisions);
    var a, b := Map(BagOfRevision, normal), Map(BagOfRevision, revisions);
    PermutationMembers(a, b);
    forall i | 0 <= i < |revisions|
      ensures PrintedId(env, revisions[i].noteId) == revisions[i].noteId
    {
      assert b[i] in b;
      assert b[i] in a;
      var j := MapIndex(BagOfRevision, normal, b[i]);
      assert BagOfRevision(normal[j]).entry.noteId == BagOfRevision(revisions[i]).entry.noteId;
    }
  }
}
