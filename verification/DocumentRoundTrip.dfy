// Exporting documents and importing them again: notes that were not edited come back as they were,
// edited notes become the next revision (crates/marginalis-archive/src/documents.rs).
module DocumentRoundTrip {
  import opened Options
  import opened Domain
  import opened Unicode
  import opened Sequences
  import opened Sorting
  import opened Snapshots
  import opened SnapshotHistory
  import opened Archives
  import opened ArchiveContents
  import opened Flattening
  import opened Bibliographies
  import opened DocumentPaths
  import opened DocumentExports
  import opened DocumentImports
  import opened DocumentRows
  import opened DocumentGrouping
  import opened StateHash
  import HexCodec

  // ---------------------------------------------------------------- assumptions

  ghost predicate LawfulCodec(c: Codec) {
    && Lawful(c.env)
    && (forall text :: c.decodeUtf8(Utf8(text)) == Some(text))
    && (forall bytes :: |c.env.digest(bytes)| == 32)
    && LawfulCsl(c.csl)
  }

  // IDs are printed as UUIDs.
  ghost predicate PrintsUuids(env: Environment) {
    forall id :: env.parseId(id).Some? ==> IsPrintedId(env.parseId(id).value)
  }

  // What every stored snapshot satisfies: note IDs are unique, references name attachments of their
  // note, IDs are printed UUIDs and digests are those of the bytes.
  ghost predicate Exportable(env: Environment, s: Snapshot) {
    && NotesOk(s.notes) && Covered(s)
    && (forall n | n in s.notes :: IsPrintedId(n.noteId) && ValidNote(n))
    && (forall a | a in s.attachments :: IsPrintedId(a.attachmentId) && a.sha256 == env.digest(a.bytes))
  }

  function EditedState(s: Snapshot, files: Files, n: Note): State {
    StateOf(s, n).(source := ContentsOf(files, PathOf(n)))
  }

  // The digests that an import of these files compares do not collide, and lengths fit in 64 bits.
  ghost predicate Collisionless(env: Environment, s: Snapshot, files: Files) {
    && (forall n | n in LiveNotes(s) ::
          && AddressableState(StateOf(s, n)) && AddressableState(EditedState(s, files, n))
          && (env.digest(Stream(StateOf(s, n))) == env.digest(Stream(EditedState(s, files, n))) ==>
                Stream(StateOf(s, n)) == Stream(EditedState(s, files, n))))
    && forall n, a | n in LiveNotes(s) && a in CurrentAttachments(s, n) ::
         var bytes := ContentsOf(files, AttachmentPath(DirectoryOf(n.owner.primary), a.attachmentId, a.fileName));
         env.digest(bytes) == env.digest(a.bytes) ==> bytes == a.bytes
  }

  // ---------------------------------------------------------------- what becomes of a note

  predicate IsUnedited(files: Files, n: Note) {
    ContentsOf(files, PathOf(n)) == Utf8(n.source)
  }

  // The row of a live note whose file has these contents: as it was written, or the next revision.
  function NextRow(c: Codec, n: Note, contents: seq<Byte>, importedAt: I64): ArchiveNote {
    if contents == Utf8(n.source) || !IsI64(n.updatedAt + 1) || !IsI64(n.revision + 1) then WriteNote(n)
    else
      WriteNote(n).(source := TextOf(c, contents),
                    updatedAt := Later(importedAt, n.updatedAt + 1),
                    revision := n.revision + 1,
                    provenance := Some(Provenance(n.createdVia, WriteReview(n.review).(trackingKnown := true))))
  }

  function LiveRow(c: Codec, files: Files, importedAt: I64): Note -> ArchiveNote {
    (n: Note) => NextRow(c, n, ContentsOf(files, PathOf(n)), importedAt)
  }

  function LiveAcl(s: Snapshot): Note -> seq<ArchiveAcl> {
    (n: Note) => Map(WriteAcl, Filter(GrantsOn(n.noteId), s.acl))
  }

  function LiveAttachments(env: Environment, s: Snapshot): Note -> seq<ArchiveAttachment> {
    (n: Note) => Map(AttachmentWriter(env), CurrentAttachments(s, n))
  }

  function CurrentIds(s: Snapshot, n: Note): seq<string> {
    Map(AttachmentIdOf, Filter(RefersToRevision(n.noteId, n.revision), s.references))
  }

  // The single imported revision of a live note, with the attachments of the exported one.
  function LiveRevision(c: Codec, s: Snapshot, files: Files, importedAt: I64): Note -> ArchiveRevision {
    (n: Note) => RevisionRow(map[n.noteId := CurrentIds(s, n)])(LiveRow(c, files, importedAt)(n))
  }

  // The rows of the live notes and of the items.
  function LiveRows(c: Codec, s: Snapshot, items: seq<BibliographyItem>, files: Files, importedAt: I64): Rows {
    Rows(Map(LiveRow(c, files, importedAt), LiveNotes(s)), Flatten(Map(LiveAcl(s), LiveNotes(s))),
         Flatten(Map(LiveAttachments(c.env, s), LiveNotes(s))), map[], Map(ItemIn(c, files), items))
  }

  // What an import makes of them.
  function Rebuilt(c: Codec, s: Snapshot, items: seq<BibliographyItem>, files: Files, packageVersion: string,
                   importedAt: I64)
    : Rebuilding
  {
    var rows := LiveRows(c, s, items, files, importedAt);
    Rebuilding(
      Archive(ARCHIVE_FORMAT, packageVersion, ARCHIVE_NOTE_PROFILE_VERSION, Some(SinglePrincipals(rows)), rows.notes,
              Some(Map(LiveRevision(c, s, files, importedAt), LiveNotes(s))), Some(rows.attachments), rows.acl),
      rows.items)
  }

  ghost predicate SameRebuilding(a: Rebuilding, b: Rebuilding) {
    SameContent(a.archive, b.archive) && multiset(a.items) == multiset(b.items)
  }

  // ---------------------------------------------------------------- attachments of a note

  lemma {:induction false} FindAttachmentFinds(attachments: seq<StoredAttachment>, attachmentId: string)
    returns (i: nat)
    ensures FindAttachment(attachments, attachmentId).Some? ==>
              i < |attachments| && attachments[i] == FindAttachment(attachments, attachmentId).value
                  && attachments[i].attachmentId == attachmentId
    ensures FindAttachment(attachments, attachmentId).None?
            ==> forall j | 0 <= j < |attachments| :: attachments[j].attachmentId != attachmentId
  {
    i := 0;
    if attachments != [] && attachments[0].attachmentId != attachmentId {
      var k := FindAttachmentFinds(attachments[1..], attachmentId);
      i := k + 1;
      if FindAttachment(attachments, attachmentId).None? {
        forall j | 0 <= j < |attachments|
          ensures attachments[j].attachmentId != attachmentId
        {
          if j > 0 {
            assert attachments[1..][j - 1] == attachments[j];
          }
        }
      }
    }
  }

  // Every reference finds an attachment, and it is one of the referring note.
  lemma {:induction false} ReferenceIsFound(s: Snapshot, r: AttachmentReference)
    requires Covered(s) && r in s.references
    ensures FindAttachment(s.attachments, r.attachmentId).Some?
    ensures var a := FindAttachment(s.attachments, r.attachmentId).value;
            a in s.attachments && a.attachmentId == r.attachmentId && a.noteId == r.noteId
  {
    var k :| 0 <= k < |s.references| && s.references[k] == r;
    assert IsAttachmentOf(s.attachments, s.references[k].attachmentId, s.references[k].noteId);
    var j :| 0 <= j < |s.attachments| && s.attachments[j].attachmentId == r.attachmentId
        && s.attachments[j].noteId == r.noteId;
    var i := FindAttachmentFinds(s.attachments, r.attachmentId);
    DifferentAttachments(s.attachments[i], s.attachments[j]);
    assert AttachmentIdKey(s.attachments[i]) == AttachmentIdKey(s.attachments[j]);
    assert i == j;
  }

  lemma {:induction false} FoundBelong(s: Snapshot, references: seq<AttachmentReference>, noteId: string)
    requires Covered(s) && forall r | r in references :: r in s.references && r.noteId == noteId
    ensures forall a | a in Found(s.attachments, references) :: a in s.attachments && a.noteId == noteId
    ensures Map((a: StoredAttachment) => a.attachmentId, Found(s.attachments, references))
            == Map(AttachmentIdOf, references)
  {
    if references != [] {
      assert references[0] in references;
      ReferenceIsFound(s, references[0]);
      assert forall r | r in references[1..] :: r in references;
      FoundBelong(s, references[1..], noteId);
      var first := FindAttachment(s.attachments, references[0].attachmentId).value;
      var rest := Found(s.attachments, references[1..]);
      assert Found(s.attachments, references) == [first] + rest;
      assert ([first] + rest)[1..] == rest;
    }
  }

  lemma {:induction false} CurrentBelong(s: Snapshot, n: Note)
    requires Covered(s)
    ensures forall a | a in CurrentAttachments(s, n) :: a in s.attachments && a.noteId == n.noteId
    ensures Map(IdOf, DocumentAttachments(s, n)) == CurrentIds(s, n)
  {
    var references := Filter(RefersToRevision(n.noteId, n.revision), s.references);
    FilterMembers(RefersToRevision(n.noteId, n.revision), s.references);
    FoundBelong(s, references, n.noteId);
    var current := CurrentAttachments(s, n);
    var ids := Map((a: StoredAttachment) => a.attachmentId, current);
    forall i | 0 <= i < |current|
      ensures Map(IdOf, DocumentAttachments(s, n))[i] == ids[i]
    {
    }
    assert Map(IdOf, DocumentAttachments(s, n)) == ids;
  }

  lemma {:induction false} LiveNotesAreNotes(s: Snapshot)
    ensures forall n | n in LiveNotes(s) :: n in s.notes && n.deletedAt.None?
  {
    FilterMembers(IsLive, s.notes);
  }

  // ---------------------------------------------------------------- one note

  // For any manifest entry that carries the hash of a state: the import sees a change exactly when the
  // owner, the source, the access list or the attachments differ from that state, not their order.
  lemma {:induction false} ChangedIffStateDiffers(env: Environment, exported: State, owner: Identity, d: DocumentNote,
                                                  contents: seq<Byte>)
    requires d.stateSha256 == HashOf(env, exported)
    requires AddressableState(exported) && AddressableState(DocumentState(owner, d, contents))
             && DistinctAttachments(exported)
    requires env.digest(Stream(exported)) == env.digest(Stream(DocumentState(owner, d, contents))) ==>
               Stream(exported) == Stream(DocumentState(owner, d, contents))
    ensures StateChanged(env, owner, d, contents) <==> !SameState(exported, DocumentState(owner, d, contents))
  {
    var current := DocumentState(owner, d, contents);
    SameStreamIffSameState(exported, current);
    if HashOf(env, exported) == HashOf(env, current) {
      HexCodec.EncodeInjective(env.digest(Stream(exported)), env.digest(Stream(current)));
    }
  }

  // The state hash tells exactly whether the source was edited.
  lemma {:induction false} ChangedIffEdited(c: Codec, s: Snapshot, files: Files, n: Note)
    requires Collisionless(c.env, s, files) && n in LiveNotes(s)
    ensures StateChanged(c.env, n.owner.primary, NoteDocument(c.env, s)(n), ContentsOf(files, PathOf(n)))
       <==> !IsUnedited(files, n)
  {
    var x, y := StateOf(s, n), EditedState(s, files, n);
    assert DocumentState(n.owner.primary, NoteDocument(c.env, s)(n), ContentsOf(files, PathOf(n))) == y;
    if HashOf(c.env, x) == HashOf(c.env, y) {
      HexCodec.EncodeInjective(c.env.digest(Stream(x)), c.env.digest(Stream(y)));
      StreamDeterminesState(x, y);
    }
    if IsUnedited(files, n) {
      assert x == y;
    }
  }

  lemma {:induction false} RowMatches(c: Codec, s: Snapshot, files: Files, importedAt: I64, n: Note)
    requires LawfulCodec(c) && Collisionless(c.env, s, files) && n in LiveNotes(s)
    requires NoteImports(c, files, importedAt, n.owner.primary, NoteDocument(c.env, s)(n))
    ensures RowOf(c, files, importedAt, n.owner.primary)(NoteDocument(c.env, s)(n)) == LiveRow(c, files, importedAt)(n)
  {
    var owner, d := n.owner.primary, NoteDocument(c.env, s)(n);
    var contents := ContentsOf(files, PathOf(n));
    LiveNotesAreNotes(s);
    ChangedIffEdited(c, s, files, n);
    ImportedRow(c, files, importedAt, owner, d);
    RowMatchesOn(c, owner, d, n, contents, StateChanged(c.env, owner, d, contents), importedAt);
  }

  lemma {:induction false} ImportedRow(c: Codec, files: Files, importedAt: I64, owner: Identity, d: DocumentNote)
    requires NoteImports(c, files, importedAt, owner, d)
    ensures var contents := ContentsOf(files, d.file);
            var row := NoteRow(owner, d, TextOf(c, contents), StateChanged(c.env, owner, d, contents), importedAt);
            row.Some? && RowOf(c, files, importedAt, owner)(d) == row.value
  {
  }

  lemma {:induction false} RowMatchesOn(c: Codec, owner: Identity, d: DocumentNote, n: Note, contents: seq<Byte>,
                                        changed: bool, importedAt: I64)
    requires LawfulCodec(c) && n.deletedAt.None?
    requires owner == n.owner.primary
    requires d.noteId == n.noteId && d.createdAt == n.createdAt && d.updatedAt == n.updatedAt
             && d.revision == n.revision
    requires d.provenance == Provenance(n.createdVia, WriteReview(n.review))
    requires changed <==> contents != Utf8(n.source)
    requires NoteRow(owner, d, TextOf(c, contents), changed, importedAt).Some?
    ensures NoteRow(owner, d, TextOf(c, contents), changed, importedAt).value == NextRow(c, n, contents, importedAt)
  {
    assert c.decodeUtf8(Utf8(n.source)) == Some(n.source);
  }

  lemma {:induction false} AclRowsMatch(env: Environment, s: Snapshot, n: Note)
    ensures AclRowsOf(NoteDocument(env, s)(n)) == LiveAcl(s)(n)
  {
    var entries := Filter(GrantsOn(n.noteId), s.acl);
    FilterMembers(GrantsOn(n.noteId), s.acl);
    MapComposed(DocumentAcl, AclRow(n.noteId), WriteAcl, entries);
  }

  // The row of one attachment, found by the document that was exported for it.
  lemma {:induction false} AttachmentRowMatches(c: Codec, s: Snapshot, files: Files, n: Note, a: StoredAttachment)
    requires Exportable(c.env, s) && Collisionless(c.env, s, files) && n in LiveNotes(s)
    requires a in CurrentAttachments(s, n) && a in s.attachments && a.noteId == n.noteId
    requires AttachmentImports(c.env, files, AttachmentDocument(DirectoryOf(n.owner.primary))(a))
    ensures AttachmentRowOf(c.env, files, n.noteId)(AttachmentDocument(DirectoryOf(n.owner.primary))(a))
            == AttachmentWriter(c.env)(a)
  {
    AttachmentBytesMatch(c, s, files, n, a);
  }

  lemma {:induction false} AttachmentImportsToo(c: Codec, s: Snapshot, files: Files, importedAt: I64, n: Note,
                                                a: StoredAttachment)
    requires NoteImports(c, files, importedAt, n.owner.primary, NoteDocument(c.env, s)(n))
    requires a in CurrentAttachments(s, n)
    ensures AttachmentImports(c.env, files, AttachmentDocument(DirectoryOf(n.owner.primary))(a))
  {
    var d := NoteDocument(c.env, s)(n);
    var i :| 0 <= i < |CurrentAttachments(s, n)| && CurrentAttachments(s, n)[i] == a;
    assert d.attachments == DocumentAttachments(s, n);
    assert AttachmentImports(c.env, files, d.attachments[i]);
  }

  lemma {:induction false} AttachmentRowsMatch(c: Codec, s: Snapshot, files: Files, importedAt: I64, n: Note)
    requires Exportable(c.env, s) && Collisionless(c.env, s, files) && n in LiveNotes(s)
    requires NoteImports(c, files, importedAt, n.owner.primary, NoteDocument(c.env, s)(n))
    ensures AttachmentRowsOf(c.env, files)(NoteDocument(c.env, s)(n)) == LiveAttachments(c.env, s)(n)
  {
    CurrentBelong(s, n);
    var document, row := AttachmentDocument(DirectoryOf(n.owner.primary)), AttachmentRowOf(c.env, files, n.noteId);
    forall a | a in CurrentAttachments(s, n)
      ensures row(document(a)) == AttachmentWriter(c.env)(a)
    {
      AttachmentImportsToo(c, s, files, importedAt, n, a);
      AttachmentRowMatches(c, s, files, n, a);
    }
    MapComposed(document, row, AttachmentWriter(c.env), CurrentAttachments(s, n));
  }

  lemma {:induction false} AttachmentBytesMatch(c: Codec, s: Snapshot, files: Files, n: Note, a: StoredAttachment)
    requires Exportable(c.env, s) && Collisionless(c.env, s, files) && n in LiveNotes(s)
             && a in CurrentAttachments(s, n)
    requires a in s.attachments && AttachmentImports(c.env, files, AttachmentDocument(DirectoryOf(n.owner.primary))(a))
    ensures ContentsOf(files, AttachmentPath(DirectoryOf(n.owner.primary), a.attachmentId, a.fileName)) == a.bytes
  {
    var bytes := ContentsOf(files, AttachmentPath(DirectoryOf(n.owner.primary), a.attachmentId, a.fileName));
    HexCodec.EncodeInjective(c.env.digest(bytes), a.sha256);
  }

  // ---------------------------------------------------------------- all notes

  lemma {:induction false} ExportedOwnerImports(c: Codec, s: Snapshot, items: seq<BibliographyItem>, files: Files,
                                                packageVersion: string, importedAt: I64, o: Identity)
    requires ImportOf(c, ExportOf(c, s, items).manifest, files, packageVersion, importedAt).Ok? && o in Owners(s, items)
    ensures OwnerImports(c, files, importedAt, OwnerDocument(c.env, s, items)(o))
  {
    var manifest := ExportOf(c, s, items).manifest;
    ImportSucceedsIff(c, manifest, files, packageVersion, importedAt);
    var i :| 0 <= i < |Owners(s, items)| && Owners(s, items)[i] == o;
    assert OwnerImports(c, files, importedAt, manifest.owners[i]);
  }

  lemma {:induction false} LiveNoteImports(c: Codec, s: Snapshot, items: seq<BibliographyItem>, files: Files,
                                           packageVersion: string, importedAt: I64, n: Note)
    requires ImportOf(c, ExportOf(c, s, items).manifest, files, packageVersion, importedAt).Ok? && n in LiveNotes(s)
    ensures NoteImports(c, files, importedAt, n.owner.primary, NoteDocument(c.env, s)(n))
  {
    var o := n.owner.primary;
    OwnersAreDistinct(s, items);
    assert OwnerOf(n) in Owners(s, items);
    ExportedOwnerImports(c, s, items, files, packageVersion, importedAt, o);
    OwnerDocumentIs(c.env, s, items, o);
    NotesOfOwner(s, o);
    var k :| 0 <= k < |NotesOf(s, o)| && NotesOf(s, o)[k] == n;
    assert Map(NoteDocument(c.env, s), NotesOf(s, o))[k] == NoteDocument(c.env, s)(n);
  }

  lemma {:induction false} ImportedRows(c: Codec, s: Snapshot, items: seq<BibliographyItem>, files: Files,
                                        packageVersion: string, importedAt: I64)
    requires LawfulCodec(c) && Exportable(c.env, s) && Collisionless(c.env, s, files)
    requires ImportOf(c, ExportOf(c, s, items).manifest, files, packageVersion, importedAt).Ok?
    ensures ImportOf(c, ExportOf(c, s, items).manifest, files, packageVersion, importedAt).value
            == RebuildingOf(
                 Plus(NO_ROWS, LiveRow(c, files, importedAt), LiveAttachments(c.env, s), LiveAcl(s),
                      NoteDocument(c.env, s), Grouped(s, items))
                   .(items := ItemsIn(c, files, items, Owners(s, items))),
                 packageVersion)
  {
    forall n | n in LiveNotes(s)
      ensures RowsAre(c, s, files, importedAt, LiveRow(c, files, importedAt), LiveAttachments(c.env, s), LiveAcl(s), n)
    {
      LiveNoteImports(c, s, items, files, packageVersion, importedAt, n);
      RowMatches(c, s, files, importedAt, n);
      AclRowsMatch(c.env, s, n);
      AttachmentRowsMatch(c, s, files, importedAt, n);
    }
    ExportedRows(c, s, items, files, importedAt, LiveRow(c, files, importedAt), LiveAttachments(c.env, s), LiveAcl(s),
                 Owners(s, items));
    ImportSucceedsIff(c, ExportOf(c, s, items).manifest, files, packageVersion, importedAt);
  }
}
