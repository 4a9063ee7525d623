// Exactly when the archive that an import rebuilds is accepted: the records that it reads fit together
// whatever was edited, so only the sources of edited notes decide
// (crates/marginalis-archive/src/documents.rs, crates/marginalis-archive/src/archive.rs).
module ImportAcceptance {
  import opened Options
  import opened Domain
  import opened Sequences
  import opened Sorting
  import opened Principals
  import opened Snapshots
  import opened SnapshotHistory
  import opened Archives
  import opened ArchiveContents
  import opened Flattening
  import opened ArchiveReading
  import opened ArchiveRereading
  import opened ArchiveMigration
  import opened AcceptedContents
  import opened Bibliographies
  import opened DocumentExports
  import opened DocumentImports
  import opened DocumentRows
  import opened DocumentGrouping
  import opened DocumentRoundTrip
  import opened DocumentConservation
  import opened DocumentFiles
  import opened UneditedDocuments
  import opened SingleRevisions
  import opened RebuiltLists
  import opened RebuiltRecords

  // ---------------------------------------------------------------- access lists

  lemma {:induction false} GroupedIdsDiffer(x: Import, i: nat, j: nat)
    requires NotesOk(x.s.notes) && i < j < |Grouped(x.s, x.items)|
    ensures Grouped(x.s, x.items)[i].noteId != Grouped(x.s, x.items)[j].noteId
  {
    LiveNotesAreUnique(x.s, x.items);
    assert NoteIdKey(Grouped(x.s, x.items)[i]) != NoteIdKey(Grouped(x.s, x.items)[j]);
  }

  lemma {:induction false} GrantsAreUnique(x: Import)
    requires Readable(x.c.env, x.s)
    ensures UniqueKeys(GrantsInOrder(x), AclIdKey)
  {
    var grouped := Grouped(x.s, x.items);
    var grants := Flatten(Map(GrantsFor(x.s), grouped));
    AclsOkMeansUnique(x.s.notes, x.s.acl);
    forall i | 0 <= i < |grouped|
      ensures UniqueKeys(GrantsFor(x.s)(grouped[i]), AclIdKey)
    {
      FilterKeepsUnique(GrantsOn(grouped[i].noteId), x.s.acl, AclIdKey);
    }
    forall i, j | 0 <= i < j < |grouped|
      ensures KeysApart(GrantsFor(x.s)(grouped[i]), GrantsFor(x.s)(grouped[j]), AclIdKey)
    {
      GroupedIdsDiffer(x, i, j);
      GrantsApart(x.s, grouped[i], grouped[j]);
    }
    UniqueFlatten(GrantsFor(x.s), grouped, AclIdKey);
    SortPermutes(grants, WrittenAclKey);
    UniqueKeysPermute(grants, GrantsInOrder(x), AclIdKey);
  }

  lemma {:induction false} GrantsApart(s: Snapshot, n: Note, m: Note)
    requires n.noteId != m.noteId
    ensures KeysApart(GrantsFor(s)(n), GrantsFor(s)(m), AclIdKey)
  {
    FilterMembers(GrantsOn(n.noteId), s.acl);
    FilterMembers(GrantsOn(m.noteId), s.acl);
    forall e, f | e in GrantsFor(s)(n) && f in GrantsFor(s)(m)
      ensures AclIdKey(e) != AclIdKey(f)
    {
      DifferentGrants(e, f);
    }
  }

  // Identities of the old table that differ have different IDs in the new one.
  lemma {:induction false} IdsStayApart(env: Environment, former: seq<Principal>, table: seq<Principal>,
                                        r: PrincipalRef, q: PrincipalRef)
    requires Declared(former) && Resolves(former, r) && Resolves(former, q) && Declared(table)
    requires RefOf(env, table, r.primary).Some? && RefOf(env, table, q.primary).Some?
    ensures NewRef(env, table, r.primary).id == NewRef(env, table, q.primary).id <==> r.id == q.id
  {
    ResolvedPairsAgree(former, r, q);
    NewRefsTellApart(env, table, r.primary, q.primary);
  }

  lemma {:induction false} GrantResolves(s: Snapshot, e: NoteAcl)
    requires RecordsResolve(s) && e in s.acl
    ensures Resolves(s.principals, e.principal)
  {
    var i :| 0 <= i < |s.acl| && s.acl[i] == e;
  }

  lemma {:induction false} OwnerResolves(s: Snapshot, n: Note)
    requires RecordsResolve(s) && n in s.notes
    ensures Resolves(s.principals, n.owner)
  {
    var i :| 0 <= i < |s.notes| && s.notes[i] == n;
    assert NoteResolves(s.principals, s.notes[i]);
  }

  lemma {:induction false} GrantsStayUnique(x: Import, table: seq<Principal>)
    requires Ready(x, table)
    ensures UniqueKeys(Map(GrantAgain(x.c.env, table), GrantsInOrder(x)), AclIdKey)
  {
    var grants := GrantsInOrder(x);
    var again := Map(GrantAgain(x.c.env, table), grants);
    GrantsAreUnique(x);
    SelectedAreStored(x);
    forall i, j | 0 <= i < j < |again|
      ensures AclIdKey(again[i]) != AclIdKey(again[j])
    {
      assert grants[i] in grants && grants[j] in grants;
      assert IsNamed(x, Grantee(grants[i])) && IsNamed(x, Grantee(grants[j]));
      GrantResolves(x.s, grants[i]);
      GrantResolves(x.s, grants[j]);
      IdsStayApart(x.c.env, x.s.principals, table, grants[i].principal, grants[j].principal);
      assert AclIdKey(grants[i]) != AclIdKey(grants[j]);
      DifferentGrants(grants[i], grants[j]);
      DifferentGrants(again[i], again[j]);
    }
  }

  lemma {:induction false} OwnerStaysAnother(x: Import, table: seq<Principal>, e: NoteAcl, n: Note)
    requires Ready(x, table) && e in GrantsInOrder(x) && n in LiveNotes(x.s) && n.noteId == e.noteId
    ensures NewRef(x.c.env, table, Grantee(e)).id != NewRef(x.c.env, table, n.owner.primary).id
  {
    SelectedAreStored(x);
    GrantIsToAnother(x.s, e, n);
    assert IsNamed(x, Grantee(e)) && IsNamed(x, n.owner.primary);
    GrantResolves(x.s, e);
    OwnerResolves(x.s, n);
    IdsStayApart(x.c.env, x.s.principals, table, e.principal, n.owner);
  }

  lemma {:induction false} GrantNamesNote(x: Import, table: seq<Principal>, e: NoteAcl)
    requires Ready(x, table) && SourcesFit(x) && e in GrantsInOrder(x)
    ensures AclNamesNote(Map(NoteAgain(x, table), NotesInOrder(x)), GrantAgain(x.c.env, table)(e))
  {
    ListedGrants(x);
    var n :| n in LiveNotes(x.s) && n.noteId == e.noteId;
    NotesAreReadAgain(x, table);
    ListedNotes(x);
    assert SourceFits(x, n);
    LiveNoteReads(x, table, n);
    NoteIsCurrent(NotesInOrder(x), NoteAgain(x, table), n);
    OwnerStaysAnother(x, table, e, n);
  }

  lemma {:induction false} GrantIsToAnother(s: Snapshot, e: NoteAcl, n: Note)
    requires NotesOk(s.notes) && AclsOk(s.notes, s.acl) && e in s.acl && n in s.notes && n.noteId == e.noteId
    ensures e.principal.id != n.owner.id
  {
    AclsOkMeansUnique(s.notes, s.acl);
    var i :| 0 <= i < |s.acl| && s.acl[i] == e;
    assert AclNamesNote(s.notes, s.acl[i]);
    var k :| 0 <= k < |s.notes| && s.notes[k] == n;
    CurrentNoteAt(s.notes, k);
  }

  lemma {:induction false} AclsFit(x: Import, table: seq<Principal>)
    requires Ready(x, table) && SourcesFit(x)
    ensures AclsOk(RebuiltParts(x, table).notes, RebuiltParts(x, table).acl)
  {
    var p := RebuiltParts(x, table);
    GrantsStayUnique(x, table);
    forall i | 0 <= i < |p.acl|
      ensures AclNamesNote(p.notes, p.acl[i])
    {
      assert GrantsInOrder(x)[i] in GrantsInOrder(x);
      GrantNamesNote(x, table, GrantsInOrder(x)[i]);
    }
    AclsOkMeansUnique(p.notes, p.acl);
  }

  // ---------------------------------------------------------------- histories

  lemma {:induction false} HistoriesFit(x: Import, table: seq<Principal>)
    requires Ready(x, table) && SourcesFit(x)
    ensures var p := RebuiltParts(x, table);
            && NotesOk(p.notes) && RevisionsOk(p.notes, Sort(p.revisions, RevisionKey))
                && HistoriesOk(p.notes, Sort(p.revisions, RevisionKey))
  {
    NotesAreReadAgain(x, table);
    ListedNotes(x);
    var again := NoteAgain(x, table);
    MapComposed(again, Baseline, BaselineAgain(x, table), NotesByRevision(x));
    MapOfPermutation(again, NotesByRevision(x), NotesInOrder(x));
    BaselinesInAnyOrder(Map(again, NotesInOrder(x)), Map(again, NotesByRevision(x)));
  }

  // ---------------------------------------------------------------- attachments

  lemma {:induction false} CurrentApart(s: Snapshot, n: Note, m: Note)
    requires Covered(s) && n.noteId != m.noteId
    ensures KeysApart(CurrentFor(s)(n), CurrentFor(s)(m), AttachmentIdKey)
  {
    CurrentBelong(s, n);
    CurrentBelong(s, m);
    forall a, b | a in CurrentFor(s)(n) && b in CurrentFor(s)(m)
      ensures AttachmentIdKey(a) != AttachmentIdKey(b)
    {
      assert a in CurrentAttachments(s, n) && b in CurrentAttachments(s, m);
      DifferentAttachments(a, b);
      if a.attachmentId == b.attachmentId {
        AttachmentById(s.attachments, a, b);
      }
    }
  }

  lemma {:induction false} CurrentUnique(s: Snapshot, n: Note)
    requires Covered(s)
    ensures UniqueKeys(CurrentFor(s)(n), AttachmentIdKey)
  {
    var current := CurrentAttachments(s, n);
    forall i, j | 0 <= i < j < |current|
      ensures AttachmentIdKey(current[i]) != AttachmentIdKey(current[j])
    {
      CurrentAreDistinct(s, n, i, j);
      DifferentAttachments(current[i], current[j]);
    }
  }

  lemma {:induction false} SelectedAreUnique(x: Import)
    requires Readable(x.c.env, x.s)
    ensures UniqueKeys(AttachmentsInOrder(x), AttachmentIdKey)
  {
    var grouped := Grouped(x.s, x.items);
    forall i | 0 <= i < |grouped|
      ensures UniqueKeys(CurrentFor(x.s)(grouped[i]), AttachmentIdKey)
    {
      CurrentUnique(x.s, grouped[i]);
    }
    forall i, j | 0 <= i < j < |grouped|
      ensures KeysApart(CurrentFor(x.s)(grouped[i]), CurrentFor(x.s)(grouped[j]), AttachmentIdKey)
    {
      GroupedIdsDiffer(x, i, j);
      CurrentApart(x.s, grouped[i], grouped[j]);
    }
    UniqueFlatten(CurrentFor(x.s), grouped, AttachmentIdKey);
    UniqueKeysOfSort(Flatten(Map(CurrentFor(x.s), grouped)), AttachmentIdKey);
  }

  lemma {:induction false} KeysStayUnique<T(!new)>(f: T -> T, s: seq<T>, key: T -> Key)
    requires UniqueKeys(s, key) && forall t :: key(f(t)) == key(t)
    ensures UniqueKeys(Sort(Map(f, s), key), key)
  {
    var mapped := Map(f, s);
    forall i, j | 0 <= i < j < |mapped|
      ensures key(mapped[i]) != key(mapped[j])
    {
      assert key(s[i]) != key(s[j]);
    }
    UniqueKeysOfSort(mapped, key);
  }

  // An attachment of the rebuilt archive, and where it comes from.
  lemma {:induction false} ComesFrom(x: Import, table: seq<Principal>, b: StoredAttachment)
    returns (n: Note, a: StoredAttachment)
    requires Ready(x, table) && b in Sort(Map(AttachmentAgain(x.c.env, table), AttachmentsInOrder(x)), AttachmentIdKey)
    ensures n in LiveNotes(x.s) && a in CurrentAttachments(x.s, n) && a in x.s.attachments && a.noteId == n.noteId
    ensures a in AttachmentsInOrder(x) && b == AttachmentAgain(x.c.env, table)(a)
  {
    var selected := AttachmentsInOrder(x);
    SortMembers(Map(AttachmentAgain(x.c.env, table), selected), AttachmentIdKey);
    var k := MapIndex(AttachmentAgain(x.c.env, table), selected, b);
    a := selected[k];
    assert a in selected;
    ListedAttachments(x);
    n :| n in LiveNotes(x.s) && a in CurrentAttachments(x.s, n);
    CurrentBelong(x.s, n);
  }

  lemma {:induction false} NoteIsThere(x: Import, table: seq<Principal>, n: Note)
    requires Ready(x, table) && SourcesFit(x) && n in LiveNotes(x.s)
    ensures IsNote(Map(NoteAgain(x, table), NotesInOrder(x)), n.noteId)
  {
    ListedNotes(x);
    assert SourceFits(x, n);
    LiveNoteReads(x, table, n);
    var again := NoteAgain(x, table);
    var k :| 0 <= k < |NotesInOrder(x)| && NotesInOrder(x)[k] == n;
    assert Map(again, NotesInOrder(x))[k] == again(n);
  }

  lemma {:induction false} StoredIsSame(s: Snapshot, a: StoredAttachment, b: StoredAttachment)
    requires a in s.attachments && SameFile(b, a)
    ensures HasSame(s.attachments, b)
  {
    var m :| 0 <= m < |s.attachments| && s.attachments[m] == a;
  }

  lemma {:induction false} AttachmentFits(x: Import, table: seq<Principal>, b: StoredAttachment)
    requires Ready(x, table) && SourcesFit(x)
    requires b in Sort(Map(AttachmentAgain(x.c.env, table), AttachmentsInOrder(x)), AttachmentIdKey)
    ensures IsNote(Map(NoteAgain(x, table), NotesInOrder(x)), b.noteId)
    ensures IsDeclaredId(table, b.createdBy.id) && HasSame(x.s.attachments, b)
  {
    var n, a := ComesFrom(x, table, b);
    NoteIsThere(x, table, n);
    assert IsNamed(x, Storer(a));
    NewRefIsDeclared(x.c.env, table, Storer(a));
    StoredIsSame(x.s, a, b);
  }

  lemma {:induction false} AttachmentsFit(x: Import, table: seq<Principal>)
    requires Ready(x, table) && SourcesFit(x)
    ensures AttachmentsOk(Declaring(RebuiltParts(x, table)), Sort(RebuiltParts(x, table).attachments, AttachmentIdKey))
  {
    var p := RebuiltParts(x, table);
    var sorted := Sort(p.attachments, AttachmentIdKey);
    SelectedAreUnique(x);
    KeysStayUnique(AttachmentAgain(x.c.env, table), AttachmentsInOrder(x), AttachmentIdKey);
    forall i | 0 <= i < |sorted|
      ensures IsNote(p.notes, sorted[i].noteId) && IsDeclaredId(p.principals, sorted[i].createdBy.id)
              && HasSame(x.s.attachments, sorted[i])
    {
      AttachmentFits(x, table, sorted[i]);
    }
    SelectionIsOk(Declaring(p), sorted, x.s.attachments);
  }

  // ---------------------------------------------------------------- references

  lemma {:induction false} IdsAreUnique(s: Snapshot, n: Note)
    requires Covered(s)
    ensures UniqueKeys(Sort(CurrentIds(s, n), TextKey), TextKey)
  {
    CurrentBelong(s, n);
    var current, ids := CurrentAttachments(s, n), CurrentIds(s, n);
    assert ids == Map(IdOf, DocumentAttachments(s, n));
    forall i, j | 0 <= i < j < |ids|
      ensures TextKey(ids[i]) != TextKey(ids[j])
    {
      CurrentAreDistinct(s, n, i, j);
      assert ids[i] == current[i].attachmentId && ids[j] == current[j].attachmentId;
      TextKeysIdentify(ids[i], ids[j]);
    }
    UniqueKeysOfSort(ids, TextKey);
  }

  lemma {:induction false} ReferencesOfOneUnique(noteId: string, revision: Revision, ids: seq<string>)
    requires UniqueKeys(ids, TextKey)
    ensures UniqueKeys(Map(ReferenceTo(noteId, revision), ids), ReferenceKey)
  {
    var references := Map(ReferenceTo(noteId, revision), ids);
    forall i, j | 0 <= i < j < |ids|
      ensures ReferenceKey(references[i]) != ReferenceKey(references[j])
    {
      assert TextKey(ids[i]) != TextKey(ids[j]);
      SameReference(references[i], references[j]);
    }
  }

  lemma {:induction false} ReferencesApart(x: Import, n: Note, m: Note)
    requires n.noteId != m.noteId
    ensures KeysApart(ReferencesAgain(x)(n), ReferencesAgain(x)(m), ReferenceKey)
  {
    forall r, q | r in ReferencesAgain(x)(n) && q in ReferencesAgain(x)(m)
      ensures ReferenceKey(r) != ReferenceKey(q)
    {
      var i := MapIndex(ReferenceTo(n.noteId, RevisionNumber(x, n)), RevisionOfRow(x)(n).attachmentIds, r);
      var j := MapIndex(ReferenceTo(m.noteId, RevisionNumber(x, m)), RevisionOfRow(x)(m).attachmentIds, q);
      SameReference(r, q);
    }
  }

  lemma {:induction false} ReferencesStayUnique(x: Import)
    requires Readable(x.c.env, x.s)
    ensures UniqueKeys(Flatten(Map(ReferencesAgain(x), NotesByRevision(x))), ReferenceKey)
  {
    var notes := NotesByRevision(x);
    ListedNotes(x);
    UniqueKeysPermute(NotesInOrder(x), notes, NoteIdKey);
    forall i | 0 <= i < |notes|
      ensures UniqueKeys(ReferencesAgain(x)(notes[i]), ReferenceKey)
    {
      IdsAreUnique(x.s, notes[i]);
      RevisionOfRowIs(x, notes[i]);
      ReferencesOfOneUnique(notes[i].noteId, RevisionNumber(x, notes[i]), RevisionOfRow(x)(notes[i]).attachmentIds);
    }
    forall i, j | 0 <= i < j < |notes|
      ensures KeysApart(ReferencesAgain(x)(notes[i]), ReferencesAgain(x)(notes[j]), ReferenceKey)
    {
      assert NoteIdKey(notes[i]) != NoteIdKey(notes[j]);
      ReferencesApart(x, notes[i], notes[j]);
    }
    UniqueFlatten(ReferencesAgain(x), notes, ReferenceKey);
  }

  lemma {:induction false} ReferenceFits(x: Import, table: seq<Principal>, n: Note, r: AttachmentReference)
    requires Ready(x, table) && SourcesFit(x) && n in LiveNotes(x.s) && r in ReferencesAgain(x)(n)
    ensures var p := RebuiltParts(x, table);
            && IsRevision(Sort(p.revisions, RevisionKey), r.noteId, r.revision)
            && IsAttachmentOf(Sort(p.attachments, AttachmentIdKey), r.attachmentId, r.noteId)
  {
    ReferenceIsTo(x, n, r);
    RevisionIsThere(x, table, n);
    AttachmentIsThere(x, table, n, r.attachmentId);
  }

  lemma {:induction false} ReferenceIsTo(x: Import, n: Note, r: AttachmentReference)
    requires r in ReferencesAgain(x)(n)
    ensures r.noteId == n.noteId && r.revision == RevisionNumber(x, n) && r.attachmentId in CurrentIds(x.s, n)
  {
    var i := MapIndex(ReferenceTo(n.noteId, RevisionNumber(x, n)), RevisionOfRow(x)(n).attachmentIds, r);
    RevisionOfRowIs(x, n);
    SortMembers(CurrentIds(x.s, n), TextKey);
  }

  lemma {:induction false} ImageIsThere<T, B>(f: T -> B, s: seq<T>, t: T, key: B -> Key) returns (k: nat)
    requires t in s
    ensures k < |Sort(Map(f, s), key)| && Sort(Map(f, s), key)[k] == f(t)
  {
    InMap(f, s, f(t));
    SortMembers(Map(f, s), key);
    assert f(t) in Sort(Map(f, s), key);
    k :| 0 <= k < |Sort(Map(f, s), key)| && Sort(Map(f, s), key)[k] == f(t);
  }

  lemma {:induction false} RevisionIsThere(x: Import, table: seq<Principal>, n: Note)
    requires Ready(x, table) && SourcesFit(x) && n in LiveNotes(x.s)
    ensures IsRevision(Sort(Map(BaselineAgain(x, table), NotesByRevision(x)), RevisionKey), n.noteId,
                       RevisionNumber(x, n))
  {
    ListedNotes(x);
    assert SourceFits(x, n);
    LiveNoteReads(x, table, n);
    var k := ImageIsThere(BaselineAgain(x, table), NotesByRevision(x), n, RevisionKey);
  }

  lemma {:induction false} AttachmentIsThere(x: Import, table: seq<Principal>, n: Note, id: string)
    requires Ready(x, table) && n in LiveNotes(x.s) && id in CurrentIds(x.s, n)
    ensures IsAttachmentOf(Sort(Map(AttachmentAgain(x.c.env, table), AttachmentsInOrder(x)), AttachmentIdKey), id,
                           n.noteId)
  {
    CurrentIdsArePrinted(x.c.env, x.s, n);
    var a :| a in CurrentAttachments(x.s, n) && a.attachmentId == id;
    CurrentBelong(x.s, n);
    ListedAttachments(x);
    var k := ImageIsThere(AttachmentAgain(x.c.env, table), AttachmentsInOrder(x), a, AttachmentIdKey);
  }

  lemma {:induction false} ListedReferenceFits(x: Import, table: seq<Principal>, r: AttachmentReference)
    requires Ready(x, table) && SourcesFit(x) && r in Flatten(Map(ReferencesAgain(x), NotesByRevision(x)))
    ensures var p := RebuiltParts(x, table);
            && IsRevision(Sort(p.revisions, RevisionKey), r.noteId, r.revision)
            && IsAttachmentOf(Sort(p.attachments, AttachmentIdKey), r.attachmentId, r.noteId)
  {
    ListedNotes(x);
    ListedIn(ReferencesAgain(x), NotesByRevision(x), r);
    var n :| n in NotesByRevision(x) && r in ReferencesAgain(x)(n);
    ReferenceFits(x, table, n, r);
  }

  lemma {:induction false} ReferencesFit(x: Import, table: seq<Principal>)
    requires Ready(x, table) && SourcesFit(x)
    ensures var p := RebuiltParts(x, table);
            ReferencesOk(Declaring(p), Sort(p.attachments, AttachmentIdKey), Sort(Flatten(p.references), ReferenceKey))
  {
    var p := RebuiltParts(x, table);
    ReferencesStayUnique(x);
    forall r | r in Flatten(p.references)
      ensures IsRevision(Sort(p.revisions, RevisionKey), r.noteId, r.revision)
      ensures IsAttachmentOf(Sort(p.attachments, AttachmentIdKey), r.attachmentId, r.noteId)
    {
      ListedReferenceFits(x, table, r);
    }
    UniqueReferencesAreOk(Declaring(p), Sort(p.attachments, AttachmentIdKey), Flatten(p.references));
  }

  // ---------------------------------------------------------------- acceptance

  lemma {:induction false} PartsFit(x: Import, table: seq<Principal>)
    requires Ready(x, table) && SourcesFit(x)
    ensures PartsOk(RebuiltParts(x, table))
  {
    HistoriesFit(x, table);
    AclsFit(x, table);
    AttachmentsFit(x, table);
    ReferencesFit(x, table);
  }

  lemma {:induction false} RebuiltIsCurrent(x: Import)
    requires Exportable(x.c.env, x.s)
    ensures var a := ArchiveBy(x);
            && a.format == ARCHIVE_FORMAT && a.packageVersion == x.c.env.packageVersion
                && a.profileVersion == ARCHIVE_NOTE_PROFILE_VERSION
            && HasProvenance(a) && HasParts(a)
  {
    NoteList(x);
    RevisionList(x);
    forall i | 0 <= i < |ArchiveBy(x).notes|
      ensures ArchiveBy(x).notes[i].provenance.Some?
    {
      RevisionOfRowIs(x, NotesInOrder(x)[i]);
    }
  }

  lemma {:induction false} AcceptedIffSourcesFit(x: Import)
    requires LawfulCodec(x.c) && Readable(x.c.env, x.s) && Exportable(x.c.env, x.s) && OwnersValid(x.c.env, x.items)
    ensures Validate(x.c.env, ArchiveBy(x)).Some? <==> SourcesFit(x)
  {
    RebuiltIsCurrent(x);
    ContentsIffPartsOk(x.c.env, ArchiveBy(x));
    if SourcesFit(x) {
      var table := TableIsRebuilt(x);
      PartsAreReadAgain(x, table);
      PartsFit(x, table);
    }
    if ReadParts(x.c.env, ArchiveBy(x)).Some? {
      ReadSourcesFit(x);
    }
  }

  // The new source of an edited note is accepted by the note parser, and uses the same attachments.
  predicate EditFits(x: Import, n: Note) {
    var draft := x.c.env.validate(TextOf(x.c, ContentsOf(x.files, PathOf(n))));
    draft.Some? && IdsMatch(draft.value, CurrentIds(x.s, n))
  }

  lemma {:induction false} RowSource(x: Import, n: Note)
    requires IsUnedited(x.files, n) || (IsI64(n.updatedAt + 1) && IsI64(n.revision + 1))
    ensures Row(x)(n).source == if IsUnedited(x.files, n) then n.source else TextOf(x.c, ContentsOf(x.files, PathOf(n)))
  {
  }

  lemma {:induction false} SourceFitsIff(x: Import, n: Note)
    requires Readable(x.c.env, x.s) && Collisionless(x.c.env, x.s, x.files) && n in LiveNotes(x.s)
    requires ImportOf(x.c, ExportOf(x.c, x.s, x.items).manifest, x.files, x.c.env.packageVersion, x.importedAt).Ok?
    ensures SourceFits(x, n) <==> IsUnedited(x.files, n) || EditFits(x, n)
  {
    LiveNotesAreNotes(x.s);
    if !IsUnedited(x.files, n) {
      NoOverflow(x.c, x.s, x.items, x.files, x.c.env.packageVersion, x.importedAt, n);
    }
    RowSource(x, n);
    assert UsesCurrent(x.c.env, x.s, n);
  }

  lemma {:induction false} SourcesFitIffEditsFit(x: Import)
    requires Readable(x.c.env, x.s) && Collisionless(x.c.env, x.s, x.files)
    requires ImportOf(x.c, ExportOf(x.c, x.s, x.items).manifest, x.files, x.c.env.packageVersion, x.importedAt).Ok?
    ensures SourcesFit(x) <==> forall n | n in LiveNotes(x.s) && !IsUnedited(x.files, n) :: EditFits(x, n)
  {
    forall n | n in LiveNotes(x.s)
      ensures SourceFits(x, n) <==> IsUnedited(x.files, n) || EditFits(x, n)
    {
      SourceFitsIff(x, n);
    }
  }

  // Whatever is done to the files of documents that were exported from an accepted archive: an import
  // that succeeds gives an archive that is accepted exactly when every edited source is accepted by the
  // note parser and uses the attachments of the note.
  lemma {:induction false} ImportIsAcceptedIff(x: Import, a: Archive)
    requires LawfulCodec(x.c) && PrintsUuids(x.c.env) && OwnersValid(x.c.env, x.items)
    requires HasParts(a) && Contents(x.c.env, a) == Some(x.s) && Collisionless(x.c.env, x.s, x.files)
    requires ImportOf(x.c, ExportOf(x.c, x.s, x.items).manifest, x.files, x.c.env.packageVersion, x.importedAt).Ok?
    ensures var r := ImportOf(x.c, ExportOf(x.c, x.s, x.items).manifest, x.files, x.c.env.packageVersion,
                              x.importedAt).value;
            Validate(x.c.env, r.archive).Some?
            <==> forall n | n in LiveNotes(x.s) && !IsUnedited(x.files, n) :: EditFits(x, n)
  {
    ContentsAreReadable(x.c.env, a);
    ReadableIsExportable(x.c.env, x.s);
    ImportedRows(x.c, x.s, x.items, x.files, x.c.env.packageVersion, x.importedAt);
    AcceptedIffSourcesFit(x);
    SourcesFitIffEditsFit(x);
  }

  // So documents of an accepted archive that nobody edited come back as an accepted archive.
  lemma {:induction false} UneditedIsAccepted(c: Codec, a: Archive, items: seq<BibliographyItem>, importedAt: I64)
    requires LawfulCodec(c) && PrintsUuids(c.env) && OwnersValid(c.env, items) && ItemsExportable(c.csl, items)
    requires HasParts(a) && Contents(c.env, a).Some?
    requires FitsMemory(Contents(c.env, a).value) && DirectoriesDiffer(Owners(Contents(c.env, a).value, items))
    ensures var e := ExportOf(c, Contents(c.env, a).value, items);
            var r := ImportOf(c, e.manifest, Collected(e.files), c.env.packageVersion, importedAt);
            r.Ok? && Validate(c.env, r.value.archive).Some?
  {
    var s := Contents(c.env, a).value;
    ContentsAreReadable(c.env, a);
    ReadableIsExportable(c.env, s);
    var files := Collected(ExportOf(c, s, items).files);
    UneditedImports(c, s, items, c.env.packageVersion, importedAt);
    UneditedIsCollisionless(c, s, items);
    ImportIsAcceptedIff(Import(c, s, items, files, importedAt), a);
  }
}
