// Which error an import of documents reports: that of the first note or bibliography in the order of the manifest that
// cannot be imported (`archive_from_documents` in crates/marginalis-archive/src/documents.rs).
module ImportErrors {
  import opened Options
  import opened Domain
  import opened Archives
  import opened ArchiveContents
  import opened Bibliographies
  import opened JsonValues
  import opened StateHash
  import opened DocumentExports
  import opened DocumentImports
  import opened DocumentRows

  // ---------------------------------------------------------------- loops that stop

  // A loop stops with an error exactly when one step fails after all before it succeeded.
  lemma {:induction false} FoldFailsIff<S, T>(step: (S, T, nat) -> Result<S>, items: seq<T>, start: S, n: nat,
                                              e: ImportError)
    requires n <= |items|
    ensures Fold(step, items, start, n) == Err(e) <==> exists k | 0 <= k < n :: StopsAt(step, items, start, k, e)
  {
    if n > 0 {
      FoldFailsIff(step, items, start, n - 1, e);
      var before := Fold(step, items, start, n - 1);
      if before.Err? {
        assert !StopsAt(step, items, start, n - 1, e);
      } else {
        assert Fold(step, items, start, n) == step(before.value, items[n - 1], n);
        if Fold(step, items, start, n) == Err(e) {
          assert StopsAt(step, items, start, n - 1, e);
        }
      }
    }
  }

  predicate StopsAt<S(==), T>(step: (S, T, nat) -> Result<S>, items: seq<T>, start: S, k: nat, e: ImportError)
    requires k < |items|
  {
    var before := Fold(step, items, start, k);
    before.Ok? && step(before.value, items[k], k + 1) == Err(e)
  }

  // ---------------------------------------------------------------- one note

  // The note file is there and is text.
  predicate IsRead(c: Codec, files: Files, d: DocumentNote) {
    d.file in files && c.decodeUtf8(files[d.file]).Some?
  }

  predicate FirstImport(c: Codec, files: Files, d: DocumentNote, k: nat)
    requires k <= |d.attachments|
  {
    forall i | 0 <= i < k :: AttachmentImports(c.env, files, d.attachments[i])
  }

  // All attachments before some one are there and match, and that one has no file, or a file that does not match.
  predicate MissesAttachment(c: Codec, files: Files, d: DocumentNote) {
    exists k | 0 <= k < |d.attachments| :: FirstImport(c, files, d, k) && d.attachments[k].file !in files
  }

  predicate HasWrongAttachment(c: Codec, files: Files, d: DocumentNote) {
    exists k | 0 <= k < |d.attachments| ::
      && FirstImport(c, files, d, k) && d.attachments[k].file in files
      && !AttachmentImports(c.env, files, d.attachments[k])
  }

  // What is wrong with the entry of a note, when everything that is looked at earlier is right.
  predicate IsNoteError(c: Codec, files: Files, owner: Identity, d: DocumentNote, position: nat, e: ImportError) {
    match e
    case MissingNoteFile(p) => p == position && d.file !in files
    case InvalidNoteEncoding(p) => p == position && d.file in files && c.decodeUtf8(files[d.file]).None?
    case MissingAttachmentFile(p) =>
      p == position && IsRead(c, files, d) && IsCanonicalSha256(d.stateSha256) && MissesAttachment(c, files, d)
    case InvalidManifestEntry(p) =>
      && p == position && IsRead(c, files, d)
      && (|| !IsCanonicalSha256(d.stateSha256)
          || HasWrongAttachment(c, files, d)
          || (&& FirstImport(c, files, d, |d.attachments|)
              && StateChanged(c.env, owner, d, files[d.file])
              && (d.revision == 0x7fff_ffff_ffff_ffff || d.updatedAt == 0x7fff_ffff_ffff_ffff)))
    case _ => false
  }

  lemma {:induction false} AttachmentFails(c: Codec, files: Files, noteId: string, position: nat, d: Attachment,
                                           e: ImportError)
    ensures ImportAttachment(c, files, noteId, d, position) == Err(e)
            <==> || (e == MissingAttachmentFile(position) && d.file !in files)
                 || (e == InvalidManifestEntry(position) && d.file in files && !AttachmentImports(c.env, files, d))
  {
  }

  // The first attachment that does not import decides.
  lemma {:induction false} AttachmentsFail(c: Codec, files: Files, d: DocumentNote, position: nat, e: ImportError)
    ensures Fold(AttachmentStep(c, files, d.noteId, position), d.attachments, [], |d.attachments|) == Err(e)
            <==> || (e == MissingAttachmentFile(position) && MissesAttachment(c, files, d))
                 || (e == InvalidManifestEntry(position) && HasWrongAttachment(c, files, d))
  {
    var step := AttachmentStep(c, files, d.noteId, position);
    FoldFailsIff(step, d.attachments, [], |d.attachments|, e);
    forall k | 0 <= k < |d.attachments|
      ensures StopsAt(step, d.attachments, [], k, e)
              <==> && FirstImport(c, files, d, k)
                   && (|| (e == MissingAttachmentFile(position) && d.attachments[k].file !in files)
                       || (e == InvalidManifestEntry(position) && d.attachments[k].file in files
                           && !AttachmentImports(c.env, files, d.attachments[k])))
    {
      AttachmentStops(c, files, d, position, k, e);
      AttachmentFails(c, files, d.noteId, position, d.attachments[k], e);
    }
  }

  lemma {:induction false} AttachmentStepFails(c: Codec, files: Files, noteId: string, position: nat,
                                               rows: seq<ArchiveAttachment>, d: Attachment, index: nat, e: ImportError)
    ensures AttachmentStep(c, files, noteId, position)(rows, d, index) == Err(e)
            <==> ImportAttachment(c, files, noteId, d, position) == Err(e)
  {
  }

  lemma {:induction false} AttachmentStops(c: Codec, files: Files, d: DocumentNote, position: nat, k: nat,
                                           e: ImportError)
    requires k < |d.attachments|
    ensures StopsAt(AttachmentStep(c, files, d.noteId, position), d.attachments, [], k, e)
            <==> && FirstImport(c, files, d, k)
                 && ImportAttachment(c, files, d.noteId, d.attachments[k], position) == Err(e)
  {
    var step, first := AttachmentStep(c, files, d.noteId, position), d.attachments[..k];
    AttachmentsCollect(c, files, d.noteId, position, first);
    FoldOfFirst(step, d.attachments, [], k);
    assert forall i | 0 <= i < k :: first[i] == d.attachments[i];
    var before := Fold(step, d.attachments, [], k);
    assert before.Ok? <==> FirstImport(c, files, d, k);
    if before.Ok? {
      AttachmentStepFails(c, files, d.noteId, position, before.value, d.attachments[k], k + 1, e);
    }
  }

  lemma {:induction false} FoldOfFirst<S, T>(step: (S, T, nat) -> Result<S>, items: seq<T>, start: S, k: nat)
    requires k <= |items|
    ensures Fold(step, items[..k], start, k) == Fold(step, items, start, k)
  {
    FoldOfPrefix(step, items, start, k, k);
  }

  lemma {:induction false} FoldOfPrefix<S, T>(step: (S, T, nat) -> Result<S>, items: seq<T>, start: S, k: nat, n: nat)
    requires n <= k <= |items|
    ensures Fold(step, items[..k], start, n) == Fold(step, items, start, n)
    decreases n
  {
    if n > 0 {
      FoldOfPrefix(step, items, start, k, n - 1);
    }
  }

  lemma {:induction false} NoteFailsIff(c: Codec, files: Files, importedAt: I64, owner: Identity, d: DocumentNote,
                                        position: nat, e: ImportError)
    ensures ImportNote(c, files, importedAt, owner, d, position) == Err(e)
            <==> IsNoteError(c, files, owner, d, position, e)
  {
    if IsRead(c, files, d) && IsCanonicalSha256(d.stateSha256) {
      var attachments := Fold(AttachmentStep(c, files, d.noteId, position), d.attachments, [], |d.attachments|);
      AttachmentsFail(c, files, d, position, e);
      AttachmentsCollect(c, files, d.noteId, position, d.attachments);
      assert attachments.Ok? <==> FirstImport(c, files, d, |d.attachments|);
      if attachments.Ok? {
        NothingMissing(c, files, d);
        CountersOverflowIff(c, files, importedAt, owner, d);
      }
    }
  }

  lemma {:induction false} NothingMissing(c: Codec, files: Files, d: DocumentNote)
    requires FirstImport(c, files, d, |d.attachments|)
    ensures !MissesAttachment(c, files, d) && !HasWrongAttachment(c, files, d)
  {
  }

  lemma {:induction false} CountersOverflowIff(c: Codec, files: Files, importedAt: I64, owner: Identity,
                                               d: DocumentNote)
    requires IsRead(c, files, d)
    ensures var changed := StateChanged(c.env, owner, d, files[d.file]);
            NoteRow(owner, d, c.decodeUtf8(files[d.file]).value, changed, importedAt).None?
            <==> changed && (d.revision == 0x7fff_ffff_ffff_ffff || d.updatedAt == 0x7fff_ffff_ffff_ffff)
  {
  }

  // ---------------------------------------------------------------- one bibliography

  predicate IsBibliographyError(c: Codec, files: Files, owner: DocumentOwner, position: nat, e: ImportError) {
    match e
    case MissingBibliographyFile(p) => p == position && owner.bibliographyFile !in files
    case InvalidBibliography(p) =>
      p == position && owner.bibliographyFile in files && c.csl.decodeArray(files[owner.bibliographyFile]).None?
    case InvalidManifestEntry(p) =>
      && p == position && owner.bibliographyFile in files
      && var values := c.csl.decodeArray(files[owner.bibliographyFile]);
      && values.Some?
      && exists item | item in owner.bibliography ::
           forall value | value in values.value :: IdOfValue(value) != Some(item.citationKey)
    case _ => false
  }

  lemma {:induction false} NotFound(values: seq<Json>, citationKey: string)
    ensures FindValue(values, citationKey).None?
            <==> forall value | value in values :: IdOfValue(value) != Some(citationKey)
  {
    if values != [] {
      NotFound(values[1..], citationKey);
      assert forall value :: value in values <==> value == values[0] || value in values[1..];
    }
  }

  lemma {:induction false} BibliographyFailsIff(c: Codec, files: Files, owner: DocumentOwner, start: Rows,
                                                position: nat, e: ImportError)
    ensures ImportBibliography(c, files, owner, start, position) == Err(e)
            <==> IsBibliographyError(c, files, owner, position, e)
  {
    if owner.bibliographyFile in files && c.csl.decodeArray(files[owner.bibliographyFile]).Some? {
      var values, items := c.csl.decodeArray(files[owner.bibliographyFile]).value, owner.bibliography;
      var step := ItemStep(IdentityOf(owner), values, position);
      ItemsCollect(IdentityOf(owner), values, position, start, items);
      OnlyOneError(step, items, start, |items|, InvalidManifestEntry(position));
      forall i | 0 <= i < |items|
        ensures FindValue(values, items[i].citationKey).None?
                <==> forall value | value in values :: IdOfValue(value) != Some(items[i].citationKey)
      {
        NotFound(values, items[i].citationKey);
      }
      assert (exists item | item in items ::
                forall value | value in values :: IdOfValue(value) != Some(item.citationKey))
          <==> exists i | 0 <= i < |items| :: FindValue(values, items[i].citationKey).None?;
    }
  }

  lemma {:induction false} OnlyOneError<S, T>(step: (S, T, nat) -> Result<S>, items: seq<T>, start: S, n: nat,
                                              e: ImportError)
    requires n <= |items| && forall s: S, d: T, k: nat :: step(s, d, k).Err? ==> step(s, d, k) == Err(e)
    ensures Fold(step, items, start, n).Err? ==> Fold(step, items, start, n) == Err(e)
  {
    if n > 0 {
      OnlyOneError(step, items, start, n - 1, e);
    }
  }

  // ---------------------------------------------------------------- the whole import

  // How many notes the owners have together.
  function NotesIn(owners: seq<DocumentOwner>): nat {
    if owners == [] then 0 else NotesIn(owners[..|owners| - 1]) + |owners[|owners| - 1].notes|
  }

  predicate OwnersImport(c: Codec, files: Files, importedAt: I64, owners: seq<DocumentOwner>, k: nat)
    requires k <= |owners|
  {
    forall i | 0 <= i < k :: OwnerImports(c, files, importedAt, owners[i])
  }

  lemma {:induction false} NotesAreCounted(c: Codec, files: Files, importedAt: I64, owners: seq<DocumentOwner>)
    ensures |AddOwners(c, files, importedAt, owners).notes| == NotesIn(owners)
  {
    if owners != [] {
      var front, last := owners[..|owners| - 1], owners[|owners| - 1];
      NotesAreCounted(c, files, importedAt, front);
      NotesAreAdded(c, files, importedAt, AddOwners(c, files, importedAt, front), last);
    }
  }

  lemma {:induction false} NotesAreAdded(c: Codec, files: Files, importedAt: I64, rows: Rows, owner: DocumentOwner)
    ensures |AddOwner(c, files, importedAt, rows, owner).notes| == |rows.notes| + |owner.notes|
  {
  }

  lemma {:induction false} OwnersAreChecked(c: Codec, files: Files, importedAt: I64, owners: seq<DocumentOwner>, k: nat)
    requires k <= |owners|
    ensures (forall i | 0 <= i < |owners[..k]| :: OwnerChecker(c, files, importedAt)(owners[..k][i]))
            <==> OwnersImport(c, files, importedAt, owners, k)
  {
    assert forall i | 0 <= i < k :: owners[..k][i] == owners[i];
    assert forall i | 0 <= i < k ::
        OwnerChecker(c, files, importedAt)(owners[i]) == OwnerImports(c, files, importedAt, owners[i]);
  }

  lemma {:induction false} RowsBefore(c: Codec, files: Files, importedAt: I64, owners: seq<DocumentOwner>, k: nat)
    requires k <= |owners|
    ensures var r := Fold(OwnerStep(c, files, importedAt), owners, NO_ROWS, k);
            && (r.Ok? <==> OwnersImport(c, files, importedAt, owners, k))
            && (r.Ok? ==> |r.value.notes| == NotesIn(owners[..k]))
  {
    OwnersCollect(c, files, importedAt, owners[..k]);
    OwnersAreChecked(c, files, importedAt, owners, k);
    FoldOfFirst(OwnerStep(c, files, importedAt), owners, NO_ROWS, k);
    NotesAreCounted(c, files, importedAt, owners[..k]);
  }

  // The first n notes of the owner import.
  predicate FirstNotesImport(c: Codec, files: Files, importedAt: I64, owner: DocumentOwner, n: nat)
    requires n <= |owner.notes|
  {
    NotesImport(c, files, importedAt, IdentityOf(owner), owner.notes[..n])
  }

  lemma {:induction false} RowsBeforeNote(c: Codec, files: Files, importedAt: I64, start: Rows, owner: DocumentOwner,
                                          j: nat)
    requires j <= |owner.notes|
    ensures var r := Fold(NoteStep(c, files, importedAt, IdentityOf(owner)), owner.notes, start, j);
            && (r.Ok? <==> FirstNotesImport(c, files, importedAt, owner, j))
            && (r.Ok? ==> |r.value.notes| == |start.notes| + j)
  {
    NotesCollect(c, files, importedAt, IdentityOf(owner), start, owner.notes[..j]);
    NotesAreChecked(c, files, importedAt, IdentityOf(owner), owner.notes[..j]);
    FoldOfFirst(NoteStep(c, files, importedAt, IdentityOf(owner)), owner.notes, start, j);
  }

  lemma {:induction false} NoteStepFails(c: Codec, files: Files, importedAt: I64, owner: Identity, rows: Rows,
                                         d: DocumentNote, index: nat, e: ImportError)
    ensures NoteStep(c, files, importedAt, owner)(rows, d, index) == Err(e)
            <==> IsNoteError(c, files, owner, d, |rows.notes| + 1, e)
  {
    NoteFailsIff(c, files, importedAt, owner, d, |rows.notes| + 1, e);
  }

  lemma {:induction false} StopsAtNote(c: Codec, files: Files, importedAt: I64, start: Rows, owner: DocumentOwner,
                                       j: nat, e: ImportError)
    requires j < |owner.notes|
    ensures StopsAt(NoteStep(c, files, importedAt, IdentityOf(owner)), owner.notes, start, j, e)
            <==> && FirstNotesImport(c, files, importedAt, owner, j)
                 && IsNoteError(c, files, IdentityOf(owner), owner.notes[j], |start.notes| + j + 1, e)
  {
    RowsBeforeNote(c, files, importedAt, start, owner, j);
    var before := Fold(NoteStep(c, files, importedAt, IdentityOf(owner)), owner.notes, start, j);
    if before.Ok? {
      NoteStepFails(c, files, importedAt, IdentityOf(owner), before.value, owner.notes[j], j + 1, e);
    }
  }

  // What is wrong with the first note of an owner that does not import, or after all notes with the bibliography;
  // notes are counted on from those of earlier owners.
  predicate IsOwnerError(c: Codec, files: Files, importedAt: I64, owner: DocumentOwner, earlier: nat, position: nat,
                         e: ImportError) {
    || (exists j | 0 <= j < |owner.notes| ::
          && FirstNotesImport(c, files, importedAt, owner, j)
          && IsNoteError(c, files, IdentityOf(owner), owner.notes[j], earlier + j + 1, e))
    || (FirstNotesImport(c, files, importedAt, owner, |owner.notes|)
        && IsBibliographyError(c, files, owner, position, e))
  }

  lemma {:induction false} OwnerStepFails(c: Codec, files: Files, importedAt: I64, start: Rows, owner: DocumentOwner,
                                          position: nat, e: ImportError)
    ensures OwnerStep(c, files, importedAt)(start, owner, position) == Err(e)
            <==> IsOwnerError(c, files, importedAt, owner, |start.notes|, position, e)
  {
    var step := NoteStep(c, files, importedAt, IdentityOf(owner));
    var rows := Fold(step, owner.notes, start, |owner.notes|);
    FoldFailsIff(step, owner.notes, start, |owner.notes|, e);
    forall j | 0 <= j < |owner.notes|
      ensures StopsAt(step, owner.notes, start, j, e)
              <==> && FirstNotesImport(c, files, importedAt, owner, j)
                   && IsNoteError(c, files, IdentityOf(owner), owner.notes[j], |start.notes| + j + 1, e)
    {
      StopsAtNote(c, files, importedAt, start, owner, j, e);
    }
    RowsBeforeNote(c, files, importedAt, start, owner, |owner.notes|);
    if rows.Ok? {
      BibliographyFailsIff(c, files, owner, rows.value, position, e);
    }
  }

  lemma {:induction false} StopsAtOwner(c: Codec, files: Files, importedAt: I64, owners: seq<DocumentOwner>, k: nat,
                                        e: ImportError)
    requires k < |owners|
    ensures StopsAt(OwnerStep(c, files, importedAt), owners, NO_ROWS, k, e)
            <==> && OwnersImport(c, files, importedAt, owners, k)
                 && IsOwnerError(c, files, importedAt, owners[k], NotesIn(owners[..k]), k + 1, e)
  {
    var before := Fold(OwnerStep(c, files, importedAt), owners, NO_ROWS, k);
    RowsBefore(c, files, importedAt, owners, k);
    StopsMeans(OwnerStep(c, files, importedAt), owners, NO_ROWS, k, e, before);
    if before.Ok? {
      OwnerErrorHere(c, files, importedAt, before.value, owners, k, e);
    }
  }

  lemma {:induction false} OwnerErrorHere(c: Codec, files: Files, importedAt: I64, rows: Rows,
                                          owners: seq<DocumentOwner>, k: nat, e: ImportError)
    requires k < |owners| && |rows.notes| == NotesIn(owners[..k])
    ensures OwnerStep(c, files, importedAt)(rows, owners[k], k + 1) == Err(e)
            <==> IsOwnerError(c, files, importedAt, owners[k], NotesIn(owners[..k]), k + 1, e)
  {
    OwnerStepFails(c, files, importedAt, rows, owners[k], k + 1, e);
  }

  lemma {:induction false} StopsMeans<S, T>(step: (S, T, nat) -> Result<S>, items: seq<T>, start: S, k: nat,
                                            e: ImportError, before: Result<S>)
    requires k < |items| && Fold(step, items, start, k) == before
    ensures StopsAt(step, items, start, k, e) <==> before.Ok? && step(before.value, items[k], k + 1) == Err(e)
  {
  }

  // An import fails because of its format, or else because of the first owner in the order of the manifest that does
  // not import.
  lemma {:induction false} ImportFailsIff(c: Codec, manifest: Manifest, files: Files, packageVersion: string,
                                          importedAt: I64, e: ImportError)
    ensures ImportOf(c, manifest, files, packageVersion, importedAt) == Err(e)
            <==> if manifest.format != "marginalis-documents-3" then e == UnsupportedFormat
                 else exists k | 0 <= k < |manifest.owners| ::
                     && OwnersImport(c, files, importedAt, manifest.owners, k)
                     && IsOwnerError(c, files, importedAt, manifest.owners[k], NotesIn(manifest.owners[..k]), k + 1, e)
  {
    var step, owners := OwnerStep(c, files, importedAt), manifest.owners;
    FoldFailsIff(step, owners, NO_ROWS, |owners|, e);
    forall k | 0 <= k < |owners|
      ensures StopsAt(step, owners, NO_ROWS, k, e)
              <==> && OwnersImport(c, files, importedAt, owners, k)
                   && IsOwnerError(c, files, importedAt, owners[k], NotesIn(owners[..k]), k + 1, e)
    {
      StopsAtOwner(c, files, importedAt, owners, k, e);
    }
  }
}
