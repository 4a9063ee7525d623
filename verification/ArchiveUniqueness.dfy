// An accepted archive repeats no keys, so its canonical form does not depend on the order of its lists
// (crates/marginalis-archive/src/archive.rs).
module ArchiveUniqueness {
  import opened Options
  import opened Domain
  import opened Sorting
  import opened Snapshots
  import opened Archives
  import opened ArchiveContents
  import opened ArchivePrincipals
  import opened ArchiveReading
  import opened ArchiveRoundTrip
  import opened ArchiveRereading
  import opened ArchiveMigration

  // Keys that reading tells apart are told apart before reading.
  lemma {:induction false} UniqueBeforeReading<A(!new), B(!new)>(f: A -> Option<B>, s: seq<A>, keyA: A -> Key,
                                                                 keyB: B -> Key)
    requires Traverse(f, s).Some? && UniqueKeys(Traverse(f, s).value, keyB)
    requires forall x, y | f(x).Some? && f(y).Some? && keyA(x) == keyA(y) :: keyB(f(x).value) == keyB(f(y).value)
    ensures UniqueKeys(s, keyA)
  {
    TraverseLength(f, s);
    var t := Traverse(f, s).value;
    forall i, j | 0 <= i < j < |s|
      ensures keyA(s[i]) != keyA(s[j])
    {
      TraverseAt(f, s, i);
      TraverseAt(f, s, j);
      assert keyB(t[i]) != keyB(t[j]);
    }
  }

  lemma {:induction false} PrincipalsAreUnique(env: Environment, entries: seq<ArchivePrincipal>)
    requires EntriesOk(env, entries)
    ensures UniqueKeys(entries, PrincipalKey)
  {
    forall i, j | 0 <= i < j < |entries|
      ensures PrincipalKey(entries[i]) != PrincipalKey(entries[j])
    {
      EntriesAreDisjoint(entries, i, j);
      var a, b := entries[i], entries[j];
      assert a.primary in IdentitiesOf(a) by {
        assert IdentitiesOf(a)[0] == a.primary;
      }
      assert b.primary in IdentitiesOf(b) by {
        assert IdentitiesOf(b)[0] == b.primary;
      }
      IdentityKeysIdentify(entries[i].primary, entries[j].primary);
    }
  }

  lemma {:induction false} NotesAreUnique(env: Environment, p: seq<Principal>, notes: seq<ArchiveNote>)
    requires Traverse(NoteReader(env, p), notes).Some? && NotesOk(Traverse(NoteReader(env, p), notes).value)
    ensures UniqueKeys(notes, NoteKey)
  {
    NotesOkMeansUnique(Traverse(NoteReader(env, p), notes).value);
    forall x, y | NoteReader(env, p)(x).Some? && NoteReader(env, p)(y).Some? && NoteKey(x) == NoteKey(y)
      ensures WrittenNoteKey(NoteReader(env, p)(x).value) == WrittenNoteKey(NoteReader(env, p)(y).value)
    {
      TextKeysIdentify(x.noteId, y.noteId);
    }
    UniqueBeforeReading(NoteReader(env, p), notes, NoteKey, WrittenNoteKey);
  }

  lemma {:induction false} RevisionsAreUnique(env: Environment, p: seq<Principal>, notes: seq<Note>,
                                              entries: seq<ArchiveRevision>)
    requires Traverse(RevisionReader(env, p, notes), entries).Some?
    requires RevisionsOk(notes, Sort(Traverse(RevisionReader(env, p, notes), entries).value, RevisionKey))
    ensures UniqueKeys(entries, ArchiveRevisionKey)
  {
    var f := RevisionReader(env, p, notes);
    RevisionKeysAreUnique(notes, Traverse(f, entries).value);
    forall x, y | f(x).Some? && f(y).Some? && ArchiveRevisionKey(x) == ArchiveRevisionKey(y)
      ensures RevisionKey(f(x).value) == RevisionKey(f(y).value)
    {
      assert ArchiveRevisionKey(x)[0] == ArchiveRevisionKey(y)[0]
             && ArchiveRevisionKey(x)[1] == ArchiveRevisionKey(y)[1];
      PointsInjective(x.noteId, y.noteId);
      assert ArchiveRevisionKey(x)[1][0] == ArchiveRevisionKey(y)[1][0];
    }
    UniqueBeforeReading(f, entries, ArchiveRevisionKey, RevisionKey);
  }

  lemma {:induction false} AttachmentsAreUnique(env: Environment, p: seq<Principal>, s: Snapshot,
                                                attachments: seq<ArchiveAttachment>)
    requires Traverse(AttachmentReader(env, p), attachments).Some?
    requires AttachmentsOk(s, Sort(Traverse(AttachmentReader(env, p), attachments).value, AttachmentIdKey))
    ensures UniqueKeys(attachments, ArchiveAttachmentKey)
  {
    var f := AttachmentReader(env, p);
    SnapshotHistory.AcceptedObjects(s, Sort(Traverse(f, attachments).value, AttachmentIdKey));
    UniqueKeysOfSort(Traverse(f, attachments).value, AttachmentIdKey);
    forall x, y | f(x).Some? && f(y).Some? && ArchiveAttachmentKey(x) == ArchiveAttachmentKey(y)
      ensures AttachmentIdKey(f(x).value) == AttachmentIdKey(f(y).value)
    {
      TextKeysIdentify(x.attachmentId, y.attachmentId);
    }
    UniqueBeforeReading(f, attachments, ArchiveAttachmentKey, AttachmentIdKey);
  }

  lemma {:induction false} AclIsUnique(env: Environment, p: seq<Principal>, notes: seq<Note>, acl: seq<ArchiveAcl>)
    requires Traverse(AclReader(env, p), acl).Some? && AclsOk(notes, Traverse(AclReader(env, p), acl).value)
    ensures UniqueKeys(acl, ArchiveAclKey)
  {
    var f := AclReader(env, p);
    AclsOkMeansUnique(notes, Traverse(f, acl).value);
    forall x, y | f(x).Some? && f(y).Some? && ArchiveAclKey(x) == ArchiveAclKey(y)
      ensures AclIdKey(f(x).value) == AclIdKey(f(y).value)
    {
      assert ArchiveAclKey(x)[0] == ArchiveAclKey(y)[0] && ArchiveAclKey(x)[1] == ArchiveAclKey(y)[1]
             && ArchiveAclKey(x)[2] == ArchiveAclKey(y)[2];
      PointsInjective(x.noteId, y.noteId);
      PointsInjective(x.identity.issuer, y.identity.issuer);
      PointsInjective(x.identity.subject, y.identity.subject);
    }
    UniqueBeforeReading(f, acl, ArchiveAclKey, AclIdKey);
  }

  lemma {:induction false} AcceptedRecordsAreUnique(env: Environment, a: Archive)
    requires HasParts(a) && Contents(env, a).Some?
    ensures UniqueRecords(a)
  {
    ContentsIffPartsOk(env, a);
    var p := ReadParts(env, a).value;
    PrincipalsAreUnique(env, a.principals.value);
    NotesAreUnique(env, p.principals, a.notes);
    RevisionsAreUnique(env, p.principals, p.notes, a.revisions.value);
    AttachmentsAreUnique(env, p.principals, Declaring(p), a.attachments.value);
    AclIsUnique(env, p.principals, p.notes, a.acl);
  }

  // An accepted archive and another are canonically equal exactly when they have the same content.
  lemma {:induction false} AcceptedIsCanonicallyUnique(env: Environment, a: Archive, b: Archive)
    requires Validate(env, a).Some?
    ensures Canonical(a) == Canonical(b) <==> SameContent(a, b)
  {
    AcceptedRecordsAreUnique(env, a);
    CanonicalIffSameContent(a, b);
  }
}
