// What is known of every record of a snapshot that was read from an archive: it can be read again wherever its
// identities are declared, and the snapshot can be exported (crates/marginalis-archive/src/archive.rs).
module AcceptedContents {
  import opened Options
  import opened Domain
  import opened Sorting
  import opened Principals
  import opened Snapshots
  import opened SnapshotHistory
  import opened Archives
  import opened ArchiveContents
  import opened ArchivePrincipals
  import opened ArchiveReading
  import opened ArchivePipeline
  import opened ArchiveRoundTrip
  import opened DocumentPaths
  import opened DocumentRoundTrip
  import HexCodec

  predicate NoteReadable(env: Environment, n: Note) {
    && env.parseId(n.noteId) == Some(n.noteId) && env.validIdentity(n.owner.primary) && ValidNote(n)
    && env.validate(n.source).Some?
    && n.title == env.validate(n.source).value.title && n.tags == env.validate(n.source).value.tags
    && (LastReview(n.review).Some? ==> LastReview(n.review).value.reviewer.primary == n.owner.primary)
  }

  predicate AttachmentReadable(env: Environment, a: StoredAttachment) {
    && env.parseId(a.attachmentId) == Some(a.attachmentId) && env.parseId(a.noteId) == Some(a.noteId)
    && env.validIdentity(a.createdBy.primary)
    && env.trimmedNfc(a.fileName) == a.fileName && ValidFileName(a.fileName)
    && 0 < |a.bytes| <= MAX_ATTACHMENT_BYTES && env.detect(a.bytes) == Some(a.mediaType)
    && env.digest(a.bytes) == a.sha256 && HexCodec.Decode(HexCodec.Encode(a.sha256)) == Some(a.sha256)
  }

  predicate GrantReadable(env: Environment, e: NoteAcl) {
    env.parseId(e.noteId) == Some(e.noteId) && env.validIdentity(e.principal.primary)
  }

  // The source of the note uses the attachments that its current revision refers to, each once.
  predicate UsesCurrent(env: Environment, s: Snapshot, n: Note) {
    env.validate(n.source).Some? && IdsMatch(env.validate(n.source).value, CurrentIds(s, n))
  }

  // Every record of the snapshot can be read again.
  ghost predicate Readable(env: Environment, s: Snapshot) {
    && Declared(s.principals) && RecordsResolve(s)
    && NotesOk(s.notes) && AclsOk(s.notes, s.acl) && Covered(s)
    && (forall n | n in s.notes :: NoteReadable(env, n) && UsesCurrent(env, s, n))
    && (forall a | a in s.attachments :: AttachmentReadable(env, a))
    && (forall e | e in s.acl :: GrantReadable(env, e))
  }

  // ---------------------------------------------------------------- one record

  lemma {:induction false} ReadNoteIsReadable(env: Environment, principals: seq<Principal>, n: ArchiveNote)
    requires Lawful(env) && Declared(principals) && ReadNote(env, principals, n).Some?
    ensures NoteReadable(env, ReadNote(env, principals, n).value)
  {
    var owner := RefOf(env, principals, n.creator).value;
    RefResolves(env, principals, n.creator);
    if n.provenance.Some? {
      ReviewerIsOwner(env, principals, owner, n.provenance.value.review);
    }
  }

  lemma {:induction false} ReviewerIsOwner(env: Environment, principals: seq<Principal>, owner: PrincipalRef,
                                           f: ReviewFields)
    requires Declared(principals) && Resolves(principals, owner) && ReadReview(env, principals, owner, f).Some?
    ensures var review := ReadReview(env, principals, owner, f).value;
            LastReview(review).Some? ==> LastReview(review).value.reviewer.primary == owner.primary
  {
    if f.issuer.Some? && f.subject.Some? {
      var identity := Identity(f.issuer.value, f.subject.value);
      if RefOf(env, principals, identity).Some? {
        RefResolves(env, principals, identity);
        ResolvedPairsAgree(principals, RefOf(env, principals, identity).value, owner);
      }
    }
  }

  lemma {:induction false} ReadAttachmentIsReadable(env: Environment, principals: seq<Principal>, a: ArchiveAttachment)
    requires Lawful(env) && Declared(principals) && ReadAttachment(env, principals, a).Some?
    ensures AttachmentReadable(env, ReadAttachment(env, principals, a).value)
  {
    RefResolves(env, principals, a.createdBy);
    assert env.trimmedNfc(env.trimmedNfc(a.fileName)) == env.trimmedNfc(a.fileName);
  }

  lemma {:induction false} ReadGrantIsReadable(env: Environment, principals: seq<Principal>, e: ArchiveAcl)
    requires Lawful(env) && Declared(principals) && ReadAcl(env, principals, e).Some?
    ensures GrantReadable(env, ReadAcl(env, principals, e).value)
  {
    RefResolves(env, principals, e.identity);
  }

  // ---------------------------------------------------------------- all records

  lemma {:induction false} ReadRecordsAreReadable(env: Environment, a: Archive, p: Parts)
    requires Lawful(env) && HasParts(a) && ReadParts(env, a) == Some(p)
    ensures forall n | n in p.notes :: NoteReadable(env, n)
    ensures forall x | x in p.attachments :: AttachmentReadable(env, x)
    ensures forall e | e in p.acl :: GrantReadable(env, e)
  {
    DeclaredPrincipalsAreDeclared(env, a.principals.value);
    forall n | n in p.notes
      ensures NoteReadable(env, n)
    {
      var i :| 0 <= i < |p.notes| && p.notes[i] == n;
      TraverseLength(NoteReader(env, p.principals), a.notes);
      TraverseAt(NoteReader(env, p.principals), a.notes, i);
      ReadNoteIsReadable(env, p.principals, a.notes[i]);
    }
    forall x | x in p.attachments
      ensures AttachmentReadable(env, x)
    {
      var i :| 0 <= i < |p.attachments| && p.attachments[i] == x;
      TraverseLength(AttachmentReader(env, p.principals), a.attachments.value);
      TraverseAt(AttachmentReader(env, p.principals), a.attachments.value, i);
      ReadAttachmentIsReadable(env, p.principals, a.attachments.value[i]);
    }
    forall e | e in p.acl
      ensures GrantReadable(env, e)
    {
      var i :| 0 <= i < |p.acl| && p.acl[i] == e;
      TraverseLength(AclReader(env, p.principals), a.acl);
      TraverseAt(AclReader(env, p.principals), a.acl, i);
      ReadGrantIsReadable(env, p.principals, a.acl[i]);
    }
  }

  // ---------------------------------------------------------------- attachments of the current revision

  lemma {:induction false} IdsMatchInAnyOrder(draft: Draft, a: seq<string>, b: seq<string>)
    requires Sort(a, TextKey) == Sort(b, TextKey) && IdsMatch(draft, a)
    ensures IdsMatch(draft, b)
  {
  }

  // The entry of the histories that the current revision of a note was read from.
  lemma {:induction false} CurrentEntry(p: Parts, n: Note) returns (j: nat)
    requires HistoriesOk(p.notes, Sort(p.revisions, RevisionKey)) && n in p.notes
    ensures j < |p.revisions| && ById(p.revisions[j].note) == ById(n)
  {
    var i :| 0 <= i < |p.notes| && p.notes[i] == n;
    var sorted := Sort(p.revisions, RevisionKey);
    var history := History(sorted, n.noteId);
    assert HistoryOk(history, p.notes[i]);
    FilterMembers(OfNote(n.noteId), sorted);
    SortMembers(p.revisions, RevisionKey);
    assert history[|history| - 1] in history;
    j :| 0 <= j < |p.revisions| && p.revisions[j] == history[|history| - 1];
  }

  lemma {:induction false} SameById(a: Note, b: Note)
    requires ById(a) == ById(b)
    ensures a.noteId == b.noteId && a.revision == b.revision && a.source == b.source
  {
  }

  lemma {:induction false} ReadUsesCurrent(env: Environment, a: Archive, p: Parts, n: Note)
    requires Lawful(env) && HasParts(a) && ReadParts(env, a) == Some(p) && PartsOk(p) && n in p.notes
    ensures UsesCurrent(env, Assembled(p), n)
  {
    var entries := a.revisions.value;
    DeclaredPrincipalsAreDeclared(env, a.principals.value);
    RevisionKeysAreUnique(p.notes, p.revisions);
    var j := CurrentEntry(p, n);
    SameById(p.revisions[j].note, n);
    TraverseLength(RevisionReader(env, p.principals, p.notes), entries);
    TraverseAt(RevisionReader(env, p.principals, p.notes), entries, j);
    TraverseAt(ReferencesReader(env), entries, j);
    EntryWritesBack(env, p.principals, p.notes, entries, j);
    EntryUses(env, p.principals, p.notes, entries[j], p.revisions[j]);
    IdsMatchInAnyOrder(env.validate(n.source).value, entries[j].attachmentIds, CurrentIds(Assembled(p), n));
  }

  lemma {:induction false} EntryUses(env: Environment, principals: seq<Principal>, notes: seq<Note>,
                                     entry: ArchiveRevision, e: NoteRevision)
    requires ReadRevision(env, principals, notes, entry) == Some(e) && ReadReferences(env, entry).Some?
    ensures env.validate(e.note.source).Some? && IdsMatch(env.validate(e.note.source).value, entry.attachmentIds)
  {
  }

  // ---------------------------------------------------------------- the snapshot

  lemma {:induction false} ContentsAreReadable(env: Environment, a: Archive)
    requires Lawful(env) && HasParts(a) && Contents(env, a).Some?
    ensures Readable(env, Contents(env, a).value)
  {
    ContentsIffPartsOk(env, a);
    var p, s := ReadParts(env, a).value, Contents(env, a).value;
    ReadSnapshotsAreSound(env, a);
    ReadRecordsAreReadable(env, a, p);
    SortMembers(p.attachments, AttachmentIdKey);
    forall n | n in s.notes
      ensures UsesCurrent(env, s, n)
    {
      ReadUsesCurrent(env, a, p, n);
    }
    ReferencesCoverRecords(s);
  }

  // Whatever was read from an archive can be exported.
  lemma {:induction false} ReadableIsExportable(env: Environment, s: Snapshot)
    requires Readable(env, s) && PrintsUuids(env)
    ensures Exportable(env, s)
  {
    forall n | n in s.notes
      ensures IsPrintedId(n.noteId) && ValidNote(n)
    {
      assert NoteReadable(env, n);
    }
    forall a | a in s.attachments
      ensures IsPrintedId(a.attachmentId) && a.sha256 == env.digest(a.bytes)
    {
      assert AttachmentReadable(env, a);
    }
  }
}
