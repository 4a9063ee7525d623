// Rebuilding an archive from exported documents that may have been edited (`archive_from_documents` in
// crates/marginalis-archive/src/documents.rs, `single_identity_archive_principals` in
// crates/marginalis-archive/src/archive.rs).
module DocumentImports {
  import opened Options
  import opened Domain
  import opened Unicode
  import opened Sequences
  import opened Sorting
  import opened Archives
  import opened ArchiveContents
  import opened Flattening
  import opened JsonValues
  import opened Bibliographies
  import opened Identities
  import opened DocumentExports
  import opened StateHash
  import HexCodec

  datatype ImportError =
    | UnsupportedFormat
    | MissingNoteFile(position: nat)
    | MissingAttachmentFile(position: nat)
    | MissingBibliographyFile(position: nat)
    | InvalidNoteEncoding(position: nat)
    | InvalidBibliography(position: nat)
    | InvalidManifestEntry(position: nat)

  datatype Result<+T> = Ok(value: T) | Err(error: ImportError)

  type Files = map<string, seq<Byte>>

  // The first n items one after the other, until one fails. A step gets the position of its item.
  function Fold<S, T>(step: (S, T, nat) -> Result<S>, items: seq<T>, start: S, n: nat): Result<S>
    requires n <= |items|
  {
    if n == 0 then Ok(start)
    else
      var before := Fold(step, items, start, n - 1);
      if before.Err? then before else step(before.value, items[n - 1], n)
  }

  lemma {:induction false} FoldFails<S, T>(step: (S, T, nat) -> Result<S>, items: seq<T>, start: S, n: nat, m: nat)
    requires n <= m <= |items| && Fold(step, items, start, n).Err?
    ensures Fold(step, items, start, m) == Fold(step, items, start, n)
    decreases m - n
  {
    if n < m {
      FoldFails(step, items, start, n, m - 1);
    }
  }

  predicate IsCanonicalSha256(value: string) {
    |value| == 64 && forall i | 0 <= i < |value| :: '0' <= value[i] <= '9' || 'a' <= value[i] <= 'f'
  }

  // ---------------------------------------------------------------- one note

  function AttachmentRow(env: Environment, noteId: string, d: Attachment, bytes: seq<Byte>): ArchiveAttachment {
    ArchiveAttachment(d.attachmentId, noteId, d.fileName, d.mediaType, d.byteLength, d.sha256, env.encode64(bytes),
                      d.createdAtMs, Identity(d.createdByIssuer, d.createdBySubject))
  }

  function ImportAttachment(c: Codec, files: Files, noteId: string, d: Attachment,
                            position: nat): Result<ArchiveAttachment> {
    if d.file !in files then Err(MissingAttachmentFile(position))
    else
      var bytes := files[d.file];
      if |bytes| != d.byteLength || !IsCanonicalSha256(d.sha256) || HexCodec.Encode(c.env.digest(bytes)) != d.sha256
      then Err(InvalidManifestEntry(position))
      else Ok(AttachmentRow(c.env, noteId, d, bytes))
  }

  function AttachmentStep(c: Codec, files: Files, noteId: string, position: nat)
    : (seq<ArchiveAttachment>, Attachment, nat) -> Result<seq<ArchiveAttachment>>
  {
    (rows: seq<ArchiveAttachment>, d: Attachment, index: nat) =>
      var row := ImportAttachment(c, files, noteId, d, position);
      if row.Err? then Err(row.error) else Ok(rows + [row.value])
  }

  // The state that the hash of a note stands for.
  function DocumentState(owner: Identity, d: DocumentNote, contents: seq<Byte>): State {
    State(owner.issuer, owner.subject, contents, d.acl, d.attachments)
  }

  predicate StateChanged(env: Environment, owner: Identity, d: DocumentNote, contents: seq<Byte>) {
    d.stateSha256 != HashOf(env, DocumentState(owner, d, contents))
  }

  predicate IsI64(n: int) {
    -0x8000_0000_0000_0000 <= n < 0x8000_0000_0000_0000
  }

  function Later(a: I64, b: I64): I64 {
    if a >= b then a else b
  }

  // A changed note becomes the next revision, later than the one before; None when a counter overflows.
  function NoteRow(owner: Identity, d: DocumentNote, source: string, changed: bool,
                   importedAt: I64): Option<ArchiveNote> {
    var kept := ArchiveNote(d.noteId, owner, source, d.createdAt, d.updatedAt, d.revision, None,
                            Some(d.provenance));
    if !changed then Some(kept)
    else if !IsI64(d.revision + 1) || !IsI64(d.updatedAt + 1) then None
    else
      Some(kept.(updatedAt := Later(importedAt, d.updatedAt + 1), revision := d.revision + 1,
                 provenance := Some(d.provenance.(review := d.provenance.review.(trackingKnown := true)))))
  }

  datatype ImportedNote = ImportedNote(row: ArchiveNote, attachments: seq<ArchiveAttachment>)

  function ImportNote(c: Codec, files: Files, importedAt: I64, owner: Identity, d: DocumentNote, position: nat)
    : Result<ImportedNote>
  {
    if d.file !in files then Err(MissingNoteFile(position))
    else
      var contents := files[d.file];
      var source := c.decodeUtf8(contents);
      if source.None? then Err(InvalidNoteEncoding(position))
      else if !IsCanonicalSha256(d.stateSha256) then Err(InvalidManifestEntry(position))
      else
        var attachments := Fold(AttachmentStep(c, files, d.noteId, position), d.attachments, [], |d.attachments|);
        if attachments.Err? then Err(attachments.error)
        else
          var row := NoteRow(owner, d, source.value, StateChanged(c.env, owner, d, contents), importedAt);
          if row.None? then Err(InvalidManifestEntry(position)) else Ok(ImportedNote(row.value, attachments.value))
  }

  // ---------------------------------------------------------------- all notes

  // An item of an archive, with its data as a JSON value.
  datatype ArchiveItem = ArchiveItem(
    itemId: string, owner: Identity, citationKey: string, csl: Json, createdAt: I64, updatedAt: I64, revision: I64)

  // Rows collected so far; `ids` has the attachment IDs of each note, the last entry for an ID counts.
  datatype Rows = Rows(
    notes: seq<ArchiveNote>, acl: seq<ArchiveAcl>, attachments: seq<ArchiveAttachment>, ids: map<string, seq<string>>,
    items: seq<ArchiveItem>)

  function AclRow(noteId: string): AclEntry -> ArchiveAcl {
    (e: AclEntry) => ArchiveAcl(noteId, Identity(e.issuer, e.subject), e.permission)
  }

  function IdOf(d: Attachment): string { d.attachmentId }

  function AddNote(rows: Rows, d: DocumentNote, imported: ImportedNote): Rows {
    rows.(notes := rows.notes + [imported.row], acl := rows.acl + Map(AclRow(d.noteId), d.acl),
          attachments := rows.attachments + imported.attachments, ids := rows.ids[d.noteId := Map(IdOf, d.attachments)])
  }

  // Positions count the notes of all owners.
  function NoteStep(c: Codec, files: Files, importedAt: I64, owner: Identity)
    : (Rows, DocumentNote, nat) -> Result<Rows>
  {
    (rows: Rows, d: DocumentNote, index: nat) =>
      var imported := ImportNote(c, files, importedAt, owner, d, |rows.notes| + 1);
      if imported.Err? then Err(imported.error) else Ok(AddNote(rows, d, imported.value))
  }

  // ---------------------------------------------------------------- bibliography items

  function ItemRow(owner: Identity, d: DocumentItem, value: Json): ArchiveItem {
    ArchiveItem(d.itemId, owner, d.citationKey, value, d.createdAt, d.updatedAt, d.revision)
  }

  // The data of an item are looked up by citation key.
  function ItemStep(owner: Identity, values: seq<Json>, position: nat): (Rows, DocumentItem, nat) -> Result<Rows> {
    (rows: Rows, d: DocumentItem, index: nat) =>
      var value := FindValue(values, d.citationKey);
      if value.None? then Err(InvalidManifestEntry(position))
      else Ok(rows.(items := rows.items + [ItemRow(owner, d, value.value)]))
  }

  function ImportBibliography(c: Codec, files: Files, owner: DocumentOwner, start: Rows, position: nat): Result<Rows> {
    if owner.bibliographyFile !in files then Err(MissingBibliographyFile(position))
    else
      var values := c.csl.decodeArray(files[owner.bibliographyFile]);
      if values.None? then Err(InvalidBibliography(position))
      else Fold(ItemStep(IdentityOf(owner), values.value, position), owner.bibliography, start, |owner.bibliography|)
  }

  function IdentityOf(owner: DocumentOwner): Identity {
    Identity(owner.issuer, owner.subject)
  }

  function OwnerStep(c: Codec, files: Files, importedAt: I64): (Rows, DocumentOwner, nat) -> Result<Rows> {
    (start: Rows, owner: DocumentOwner, position: nat) =>
      var rows := Fold(NoteStep(c, files, importedAt, IdentityOf(owner)), owner.notes, start, |owner.notes|);
      if rows.Err? then rows else ImportBibliography(c, files, owner, rows.value, position)
  }

  const NO_ROWS := Rows([], [], [], map[], [])

  // ---------------------------------------------------------------- the archive

  // One imported revision for each note, by its owner.
  function RevisionRow(ids: map<string, seq<string>>): ArchiveNote -> ArchiveRevision {
    (n: ArchiveNote) =>
      ArchiveRevision(n.noteId, n.revision, n.updatedAt, n.creator, Imported, n.source, n.deletedAt,
                      if n.provenance.Some? then n.provenance.value.review
                          else ReviewFields(false, None, None, None, None),
                      if n.noteId in ids then ids[n.noteId] else [])
  }

  function ReviewerIdentity(n: ArchiveNote): seq<Identity> {
    if n.provenance.Some? && n.provenance.value.review.issuer.Some? && n.provenance.value.review.subject.Some? then
      [Identity(n.provenance.value.review.issuer.value, n.provenance.value.review.subject.value)]
    else []
  }

  function NoteIdentities(n: ArchiveNote): seq<Identity> {
    [n.creator] + ReviewerIdentity(n)
  }

  function AclIdentity(e: ArchiveAcl): Identity { e.identity }

  function CreatorIdentity(a: ArchiveAttachment): Identity { a.createdBy }

  function ItemIdentity(item: ArchiveItem): Identity { item.owner }

  // Every identity that a row names.
  function UsedIdentities(rows: Rows): seq<Identity> {
    Flatten(Map(NoteIdentities, rows.notes)) + Map(AclIdentity, rows.acl) + Map(ItemIdentity, rows.items)
    + Map(CreatorIdentity, rows.attachments)
  }

  function Lone(i: Identity): ArchivePrincipal {
    ArchivePrincipal(i, [])
  }

  // One principal for each identity, in their order.
  function SinglePrincipals(rows: Rows): seq<ArchivePrincipal> {
    Map(Lone, Once(UsedIdentities(rows)))
  }

  function ArchiveOfRows(rows: Rows, packageVersion: string): Archive {
    Archive(ARCHIVE_FORMAT, packageVersion, ARCHIVE_NOTE_PROFILE_VERSION, Some(SinglePrincipals(rows)),
            rows.notes, Some(Map(RevisionRow(rows.ids), rows.notes)), Some(rows.attachments), rows.acl)
  }

  // The rebuilt archive and its bibliography items, in canonical order.
  datatype Rebuilding = Rebuilding(archive: Archive, items: seq<ArchiveItem>)

  function ItemIdKey(item: ArchiveItem): Key { [Points(item.itemId)] }

  function RebuildingOf(rows: Rows, packageVersion: string): Rebuilding {
    Rebuilding(Canonical(ArchiveOfRows(rows, packageVersion)), Sort(rows.items, ItemIdKey))
  }

  function ImportOf(c: Codec, manifest: Manifest, files: Files, packageVersion: string,
                    importedAt: I64): Result<Rebuilding> {
    if manifest.format != DOCUMENT_EXPORT_FORMAT then Err(UnsupportedFormat)
    else
      var rows := Fold(OwnerStep(c, files, importedAt), manifest.owners, NO_ROWS, |manifest.owners|);
      if rows.Err? then Err(rows.error) else Ok(RebuildingOf(rows.value, packageVersion))
  }

  // ---------------------------------------------------------------- the loops

  method ReadAttachments(c: Codec, files: Files, noteId: string, position: nat, attachments: seq<Attachment>)
    returns (r: Result<seq<ArchiveAttachment>>)
    ensures r == Fold(AttachmentStep(c, files, noteId, position), attachments, [], |attachments|)
  {
    r := Ok([]);
    for i := 0 to |attachments|
      invariant r.Ok? && Fold(AttachmentStep(c, files, noteId, position), attachments, [], i) == r
    {
      var row := ImportAttachment(c, files, noteId, attachments[i], position);
      r := if row.Err? then Err(row.error) else Ok(r.value + [row.value]);
      if r.Err? {
        FoldFails(AttachmentStep(c, files, noteId, position), attachments, [], i + 1, |attachments|);
        return;
      }
    }
  }

  method ReadNoteDocument(c: Codec, files: Files, importedAt: I64, owner: Identity, d: DocumentNote, position: nat)
    returns (r: Result<ImportedNote>)
    ensures r == ImportNote(c, files, importedAt, owner, d, position)
  {
    if d.file !in files {
      return Err(MissingNoteFile(position));
    }
    var contents := files[d.file];
    var source := c.decodeUtf8(contents);
    if source.None? {
      return Err(InvalidNoteEncoding(position));
    }
    if !IsCanonicalSha256(d.stateSha256) {
      return Err(InvalidManifestEntry(position));
    }
    var attachments := ReadAttachments(c, files, d.noteId, position, d.attachments);
    if attachments.Err? {
      return Err(attachments.error);
    }
    var row := NoteRow(owner, d, source.value, StateChanged(c.env, owner, d, contents), importedAt);
    if row.None? {
      return Err(InvalidManifestEntry(position));
    }
    r := Ok(ImportedNote(row.value, attachments.value));
  }

  method ReadNotes(c: Codec, files: Files, importedAt: I64, owner: Identity, notes: seq<DocumentNote>, start: Rows)
    returns (r: Result<Rows>)
    ensures r == Fold(NoteStep(c, files, importedAt, owner), notes, start, |notes|)
  {
    r := Ok(start);
    for i := 0 to |notes|
      invariant r.Ok? && Fold(NoteStep(c, files, importedAt, owner), notes, start, i) == r
    {
      var imported := ReadNoteDocument(c, files, importedAt, owner, notes[i], |r.value.notes| + 1);
      r := if imported.Err? then Err(imported.error) else Ok(AddNote(r.value, notes[i], imported.value));
      if r.Err? {
        FoldFails(NoteStep(c, files, importedAt, owner), notes, start, i + 1, |notes|);
        return;
      }
    }
  }

  method ReadItems(owner: Identity, values: seq<Json>, position: nat, items: seq<DocumentItem>, start: Rows)
    returns (r: Result<Rows>)
    ensures r == Fold(ItemStep(owner, values, position), items, start, |items|)
  {
    r := Ok(start);
    for i := 0 to |items|
      invariant r.Ok? && Fold(ItemStep(owner, values, position), items, start, i) == r
    {
      var value := FindValue(values, items[i].citationKey);
      if value.None? {
        r := Err(InvalidManifestEntry(position));
        FoldFails(ItemStep(owner, values, position), items, start, i + 1, |items|);
        return;
      }
      r := Ok(r.value.(items := r.value.items + [ItemRow(owner, items[i], value.value)]));
    }
  }

  method ReadOwner(c: Codec, files: Files, importedAt: I64, start: Rows, owner: DocumentOwner, position: nat)
    returns (r: Result<Rows>)
    ensures r == OwnerStep(c, files, importedAt)(start, owner, position)
  {
    r := ReadNotes(c, files, importedAt, IdentityOf(owner), owner.notes, start);
    if r.Err? {
      return;
    }
    if owner.bibliographyFile !in files {
      return Err(MissingBibliographyFile(position));
    }
    var values := c.csl.decodeArray(files[owner.bibliographyFile]);
    if values.None? {
      return Err(InvalidBibliography(position));
    }
    r := ReadItems(IdentityOf(owner), values.value, position, owner.bibliography, r.value);
  }

  method ReadOwners(c: Codec, files: Files, importedAt: I64, owners: seq<DocumentOwner>) returns (r: Result<Rows>)
    ensures r == Fold(OwnerStep(c, files, importedAt), owners, NO_ROWS, |owners|)
  {
    r := Ok(NO_ROWS);
    for i := 0 to |owners|
      invariant r.Ok? && Fold(OwnerStep(c, files, importedAt), owners, NO_ROWS, i) == r
    {
      r := ReadOwner(c, files, importedAt, r.value, owners[i], i + 1);
      if r.Err? {
        FoldFails(OwnerStep(c, files, importedAt), owners, NO_ROWS, i + 1, |owners|);
        return;
      }
    }
  }

  // ---------------------------------------------------------------- the rebuilt principals

  // The set of identities that rows name.
  method CollectIdentities(rows: Rows) returns (identities: set<Identity>)
    ensures forall i :: i in identities <==> i in UsedIdentities(rows)
  {
    identities := {};
    for n := 0 to |rows.notes|
      invariant forall i :: i in identities <==> exists k | 0 <= k < n :: i in NoteIdentities(rows.notes[k])
    {
      identities := identities + {rows.notes[n].creator} + set i | i in ReviewerIdentity(rows.notes[n]);
    }
    forall i
      ensures i in Flatten(Map(NoteIdentities, rows.notes)) <==> i in identities
    {
      FlattenMembers(NoteIdentities, rows.notes, i);
    }
    identities := identities + (set e | e in Map(AclIdentity, rows.acl)) + (set e | e in Map(ItemIdentity, rows.items))
                  + set e | e in Map(CreatorIdentity, rows.attachments);
  }

  method SingleIdentityArchivePrincipals(rows: Rows) returns (principals: seq<ArchivePrincipal>)
    ensures principals == SinglePrincipals(rows)
  {
    var identities := CollectIdentities(rows);
    var ordered := Ordered(identities, UsedIdentities(rows));
    principals := Map(Lone, ordered);
  }

  method ArchiveFromDocuments(c: Codec, manifest: Manifest, files: Files, packageVersion: string, importedAt: I64)
    returns (r: Result<Rebuilding>)
    ensures r == ImportOf(c, manifest, files, packageVersion, importedAt)
  {
    if manifest.format != DOCUMENT_EXPORT_FORMAT {
      return Err(UnsupportedFormat);
    }
    var rows := ReadOwners(c, files, importedAt, manifest.owners);
    if rows.Err? {
      return Err(rows.error);
    }
    var rebuilding := Rebuild(rows.value, packageVersion);
    r := Ok(rebuilding);
  }

  // One revision for each note, the principals rebuilt from the rows, and everything sorted.
  method Rebuild(rows: Rows, packageVersion: string) returns (r: Rebuilding)
    ensures r == RebuildingOf(rows, packageVersion)
  {
    var principals := SingleIdentityArchivePrincipals(rows);
    var revisions := Map(RevisionRow(rows.ids), rows.notes);
    var archive := ToCanonical(
      Archive(ARCHIVE_FORMAT, packageVersion, ARCHIVE_NOTE_PROFILE_VERSION, Some(principals), rows.notes,
              Some(revisions),
              Some(rows.attachments), rows.acl));
    r := Rebuilding(archive, Sort(rows.items, ItemIdKey));
  }
}
