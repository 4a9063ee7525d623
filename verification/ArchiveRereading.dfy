// What was written can be read: each record of an archive that is created from contents that were read
// reads as the same record (crates/marginalis-archive/src/archive.rs).
module ArchiveRereading {
  import opened Options
  import opened Domain
  import opened Sorting
  import opened Principals
  import opened Snapshots
  import opened Archives
  import opened ArchiveContents
  import opened ArchivePrincipals
  import opened ArchiveReading
  import opened ArchiveRoundTrip
  import SnapshotHistory

  // ---------------------------------------------------------------- the same contents in order

  function WithSortedAliases(p: Principal): Principal {
    p.(identities := IdentitiesOf(SortAliases(WritePrincipal(p))))
  }

  function WrittenNoteKey(n: Note): Key { NoteKey(WriteNote(n)) }

  function WrittenAclKey(e: NoteAcl): Key { ArchiveAclKey(WriteAcl(e)) }

  // Notes, access lists and aliases in canonical order; the rest is in order already.
  function Ordered(s: Snapshot): Snapshot {
    s.(principals := Map(WithSortedAliases, s.principals), notes := Sort(s.notes, WrittenNoteKey),
       acl := Sort(s.acl, WrittenAclKey))
  }

  // ---------------------------------------------------------------- lookup in ordered notes

  lemma {:induction false} NotesOkMeansUnique(notes: seq<Note>)
    ensures NotesOk(notes) <==> UniqueKeys(notes, WrittenNoteKey)
  {
    forall i, j | 0 <= i < j < |notes|
      ensures WrittenNoteKey(notes[i]) == WrittenNoteKey(notes[j]) <==> notes[i].noteId == notes[j].noteId
    {
      TextKeysIdentify(notes[i].noteId, notes[j].noteId);
    }
    if NotesOk(notes) {
      forall i, j | 0 <= i < j < |notes|
        ensures WrittenNoteKey(notes[i]) != WrittenNoteKey(notes[j])
      {
        assert NoteOk(notes, j);
      }
    }
  }

  lemma {:induction false} OrderedNotesAreOk(notes: seq<Note>)
    requires NotesOk(notes)
    ensures NotesOk(Sort(notes, WrittenNoteKey))
  {
    NotesOkMeansUnique(notes);
    UniqueKeysOfSort(notes, WrittenNoteKey);
    NotesOkMeansUnique(Sort(notes, WrittenNoteKey));
  }

  lemma {:induction false} CurrentInOrder(notes: seq<Note>, noteId: string)
    requires NotesOk(notes)
    ensures CurrentNote(Sort(notes, WrittenNoteKey), noteId) == CurrentNote(notes, noteId)
    ensures IsNote(Sort(notes, WrittenNoteKey), noteId) == IsNote(notes, noteId)
  {
    var sorted := Sort(notes, WrittenNoteKey);
    SortMembers(notes, WrittenNoteKey);
    OrderedNotesAreOk(notes);
    var i := SnapshotHistory.CurrentNoteFinds(notes, noteId);
    var j := SnapshotHistory.CurrentNoteFinds(sorted, noteId);
    if CurrentNote(notes, noteId).Some? {
      assert notes[i] in sorted;
      var k :| 0 <= k < |sorted| && sorted[k] == notes[i];
      SnapshotHistory.CurrentNoteAt(sorted, k);
    } else {
      assert forall k | 0 <= k < |sorted| :: sorted[k] in notes;
    }
  }

  // ---------------------------------------------------------------- the table again

  lemma {:induction false} ValidEntriesInOrder(env: Environment, entries: seq<ArchivePrincipal>)
    requires EntriesOk(env, entries)
    ensures EntriesOk(env, CanonicalPrincipals(entries))
  {
    var once := Map(SortAliases, entries);
    IdentitiesWithSortedAliases(entries);
    IdentitiesOfSorted(once);
    DistinctPermutes(AllIdentities(entries), AllIdentities(CanonicalPrincipals(entries)));
    SortMembers(once, PrincipalKey);
    forall i | 0 <= i < |CanonicalPrincipals(entries)|
      ensures EntryOk(env, CanonicalPrincipals(entries)[i])
    {
      assert CanonicalPrincipals(entries)[i] in once;
      var j := MapIndex(SortAliases, entries, CanonicalPrincipals(entries)[i]);
      SortedEntryIsValid(env, entries[j]);
    }
  }

  lemma {:induction false} SortedEntryIsValid(env: Environment, p: ArchivePrincipal)
    requires EntryOk(env, p)
    ensures EntryOk(env, SortAliases(p))
  {
    SortMembers(p.aliases, IdentityKey);
    var sorted := IdentitiesOf(SortAliases(p));
    forall i | 0 <= i < |sorted|
      ensures env.validIdentity(sorted[i])
    {
      assert sorted[i] in IdentitiesOf(p) by {
        if i > 0 {
          assert sorted[i] in p.aliases;
        } else {
          assert IdentitiesOf(p)[0] == sorted[0];
        }
      }
    }
  }

  lemma {:induction false} TableInOrder(env: Environment, entries: seq<ArchivePrincipal>)
    requires DeclaredPrincipals(env, entries).Some?
    ensures var table := DeclaredPrincipals(env, entries).value;
            && DeclaredPrincipals(env, CanonicalPrincipals(entries)) == Some(Map(WithSortedAliases, table))
            && SameTable(table, Map(WithSortedAliases, table))
  {
    ValidEntriesInOrder(env, entries);
    SortIdempotent(Map(SortAliases, entries), PrincipalKey);
    SortMaps(SortAliases, entries, PrincipalKey, PrincipalKey);
    DeclaredPrincipalsAreDeclared(env, entries);
    var sorted := Sort(entries, PrincipalKey);
    var table := Numbered(sorted);
    assert CanonicalPrincipals(entries) == Map(SortAliases, sorted);
    forall i | 0 <= i < |table|
      ensures Numbered(Map(SortAliases, sorted))[i] == WithSortedAliases(table[i])
    {
      EntryIsDistinct(sorted, i);
      PrincipalWritesBack(table[i], sorted[i]);
    }
    assert Numbered(Map(SortAliases, sorted)) == Map(WithSortedAliases, table);
  }

  // ---------------------------------------------------------------- one record again

  lemma {:induction false} ReviewReadsAgain(env: Environment, p: seq<Principal>, q: seq<Principal>, owner: PrincipalRef,
                                            f: ReviewFields)
    requires SameTable(p, q)
    ensures ReadReview(env, q, owner, f) == ReadReview(env, p, owner, f)
  {
    if f.issuer.Some? && f.subject.Some? {
      SameTableSameRefs(env, p, q, Identity(f.issuer.value, f.subject.value));
    }
  }

  lemma {:induction false} NoteReadsAgain(env: Environment, p: seq<Principal>, q: seq<Principal>, n: ArchiveNote)
    requires Lawful(env) && SameTable(p, q) && ReadNote(env, p, n).Some?
    ensures ReadNote(env, q, NoteNormalizer(env)(n)) == ReadNote(env, p, n)
  {
    SameTableSameRefs(env, p, q, n.creator);
    if n.provenance.Some? {
      ReviewReadsAgain(env, p, q, RefOf(env, p, n.creator).value, n.provenance.value.review);
    }
  }

  lemma {:induction false} AclReadsAgain(env: Environment, p: seq<Principal>, q: seq<Principal>, e: ArchiveAcl)
    requires Lawful(env) && SameTable(p, q) && ReadAcl(env, p, e).Some?
    ensures ReadAcl(env, q, AclNormalizer(env)(e)) == ReadAcl(env, p, e)
  {
    SameTableSameRefs(env, p, q, e.identity);
  }

  lemma {:induction false} AttachmentReadsAgain(env: Environment, p: seq<Principal>, q: seq<Principal>,
                                                a: ArchiveAttachment)
    requires Lawful(env) && SameTable(p, q) && ReadAttachment(env, p, a).Some?
    ensures ReadAttachment(env, q, AttachmentNormalizer(env)(a)) == ReadAttachment(env, p, a)
  {
    SameTableSameRefs(env, p, q, a.createdBy);
    assert env.trimmedNfc(env.trimmedNfc(a.fileName)) == env.trimmedNfc(a.fileName);
  }

  lemma {:induction false} RevisionReadsAgain(env: Environment, p: seq<Principal>, q: seq<Principal>, notes: seq<Note>,
                                              e: ArchiveRevision, attachmentIds: seq<string>)
    requires Lawful(env) && SameTable(p, q) && NotesOk(notes) && ReadRevision(env, p, notes, e).Some?
    ensures ReadRevision(env, q, Sort(notes, WrittenNoteKey),
                         RevisionNormalizer(env)(e).(attachmentIds := attachmentIds))
            == ReadRevision(env, p, notes, e)
  {
    SameTableSameRefs(env, p, q, e.changedBy);
    var noteId := env.parseId(e.noteId).value;
    CurrentInOrder(notes, noteId);
    ReviewReadsAgain(env, p, q, CurrentNote(notes, noteId).value.owner, e.review);
  }

  // The references read from an entry with its attachment list in another order.
  lemma {:induction false} ReferencesReadAgain(env: Environment, e: ArchiveRevision, attachmentIds: seq<string>)
    requires Lawful(env) && ReadReferences(env, e).Some? && multiset(attachmentIds) == multiset(e.attachmentIds)
    ensures ReadReferences(env, RevisionNormalizer(env)(e).(attachmentIds := attachmentIds))
            == Some(Map(ReferenceTo(env.parseId(e.noteId).value, e.revision), attachmentIds))
  {
    var again := RevisionNormalizer(env)(e).(attachmentIds := attachmentIds);
    SortTexts(attachmentIds, e.attachmentIds);
    ListedIdsArePrinted(env, e);
    PermutationMembers(attachmentIds, e.attachmentIds);
    forall i | 0 <= i < |attachmentIds|
      ensures env.parseId(attachmentIds[i]) == Some(attachmentIds[i])
    {
      assert attachmentIds[i] in e.attachmentIds;
      var j :| 0 <= j < |e.attachmentIds| && e.attachmentIds[j] == attachmentIds[i];
      TraverseAt(env.parseId, e.attachmentIds, j);
    }
    TraverseAll(env.parseId, attachmentIds, attachmentIds);
  }

  // ---------------------------------------------------------------- all records again

  lemma {:induction false} NotesReadAgain(env: Environment, p: seq<Principal>, q: seq<Principal>,
                                          notes: seq<ArchiveNote>)
    requires Lawful(env) && Declared(p) && SameTable(p, q) && Traverse(NoteReader(env, p), notes).Some?
    requires forall i | 0 <= i < |notes| :: notes[i].provenance.Some?
    ensures var read := Traverse(NoteReader(env, p), notes).value;
            Traverse(NoteReader(env, q), Sort(Map(WriteNote, read), NoteKey)) == Some(Sort(read, WrittenNoteKey))
  {
    var read := Traverse(NoteReader(env, p), notes).value;
    var sorted := Sort(read, WrittenNoteKey);
    SortMaps(WriteNote, read, WrittenNoteKey, NoteKey);
    SortMembers(read, WrittenNoteKey);
    TraverseLength(NoteReader(env, p), notes);
    forall i | 0 <= i < |sorted|
      ensures NoteReader(env, q)(Map(WriteNote, sorted)[i]) == Some(sorted[i])
    {
      assert sorted[i] in read;
      var j :| 0 <= j < |read| && read[j] == sorted[i];
      TraverseAt(NoteReader(env, p), notes, j);
      NoteReadsBack(env, p, notes[j]);
      NoteReadsAgain(env, p, q, notes[j]);
    }
    TraverseAll(NoteReader(env, q), Map(WriteNote, sorted), sorted);
  }

  lemma {:induction false} AclsReadAgain(env: Environment, p: seq<Principal>, q: seq<Principal>, acl: seq<ArchiveAcl>)
    requires Lawful(env) && Declared(p) && SameTable(p, q) && Traverse(AclReader(env, p), acl).Some?
    ensures var read := Traverse(AclReader(env, p), acl).value;
            Traverse(AclReader(env, q), Sort(Map(WriteAcl, read), ArchiveAclKey)) == Some(Sort(read, WrittenAclKey))
  {
    var read := Traverse(AclReader(env, p), acl).value;
    var sorted := Sort(read, WrittenAclKey);
    SortMaps(WriteAcl, read, WrittenAclKey, ArchiveAclKey);
    SortMembers(read, WrittenAclKey);
    TraverseLength(AclReader(env, p), acl);
    forall i | 0 <= i < |sorted|
      ensures AclReader(env, q)(Map(WriteAcl, sorted)[i]) == Some(sorted[i])
    {
      assert sorted[i] in read;
      var j :| 0 <= j < |read| && read[j] == sorted[i];
      TraverseAt(AclReader(env, p), acl, j);
      AclReadsBack(env, p, acl[j]);
      AclReadsAgain(env, p, q, acl[j]);
    }
    TraverseAll(AclReader(env, q), Map(WriteAcl, sorted), sorted);
  }

  lemma {:induction false} AttachmentsReadAgain(env: Environment, p: seq<Principal>, q: seq<Principal>,
                                                attachments: seq<ArchiveAttachment>)
    requires Lawful(env) && Declared(p) && SameTable(p, q) && Traverse(AttachmentReader(env, p), attachments).Some?
    ensures var sorted := Sort(Traverse(AttachmentReader(env, p), attachments).value, AttachmentIdKey);
            Traverse(AttachmentReader(env, q), Sort(Map(AttachmentWriter(env), sorted), ArchiveAttachmentKey))
                == Some(sorted)
  {
    var read := Traverse(AttachmentReader(env, p), attachments).value;
    var sorted := Sort(read, AttachmentIdKey);
    SortMaps(AttachmentWriter(env), sorted, AttachmentIdKey, ArchiveAttachmentKey);
    SortIdempotent(read, AttachmentIdKey);
    SortMembers(read, AttachmentIdKey);
    TraverseLength(AttachmentReader(env, p), attachments);
    forall i | 0 <= i < |sorted|
      ensures AttachmentReader(env, q)(Map(AttachmentWriter(env), sorted)[i]) == Some(sorted[i])
    {
      assert sorted[i] in read;
      var j :| 0 <= j < |read| && read[j] == sorted[i];
      TraverseAt(AttachmentReader(env, p), attachments, j);
      AttachmentReadsBack(env, p, attachments[j]);
      AttachmentReadsAgain(env, p, q, attachments[j]);
    }
    TraverseAll(AttachmentReader(env, q), Map(AttachmentWriter(env), sorted), sorted);
  }
}
