// The rows that an import collects, for any manifest and any files, and the principals that are rebuilt
// from them (crates/marginalis-archive/src/documents.rs, crates/marginalis-archive/src/archive.rs).
module DocumentRows {
  import opened Options
  import opened Domain
  import opened Unicode
  import opened Sequences
  import opened Sorting
  import opened Archives
  import opened ArchiveContents
  import opened Flattening
  import opened JsonValues
  import opened Bibliographies
  import opened Identities
  import opened DocumentExports
  import opened DocumentImports
  import opened StateHash
  import HexCodec

  function ContentsOf(files: Files, path: string): seq<Byte> {
    if path in files then files[path] else []
  }

  function TextOf(c: Codec, contents: seq<Byte>): string {
    var text := c.decodeUtf8(contents);
    if text.Some? then text.value else ""
  }

  // What a step does after the first n items: it fails unless the item is fine, and else leads to the
  // state after n + 1 items.
  predicate StepsTo<S(==), T>(step: (S, T, nat) -> Result<S>, items: seq<T>, ok: T -> bool, after: seq<T> -> S, n: nat)
    requires n < |items|
  {
    var r := step(after(items[..n]), items[n], n + 1);
    r.Ok? == ok(items[n]) && (r.Ok? ==> r.value == after(items[..n + 1]))
  }

  lemma {:induction false} FoldCollects<S, T>(step: (S, T, nat) -> Result<S>, items: seq<T>, ok: T -> bool,
                                              after: seq<T> -> S, n: nat)
    requires n <= |items| && forall i | 0 <= i < |items| :: StepsTo(step, items, ok, after, i)
    ensures Fold(step, items, after([]), n).Ok? <==> forall i | 0 <= i < n :: ok(items[i])
    ensures Fold(step, items, after([]), n).Ok? ==> Fold(step, items, after([]), n).value == after(items[..n])
  {
    if n == 0 {
      assert items[..0] == [];
    } else {
      FoldCollects(step, items, ok, after, n - 1);
      assert StepsTo(step, items, ok, after, n - 1);
    }
  }

  // ---------------------------------------------------------------- one note

  function AttachmentRowOf(env: Environment, files: Files, noteId: string): Attachment -> ArchiveAttachment {
    (d: Attachment) => AttachmentRow(env, noteId, d, ContentsOf(files, d.file))
  }

  predicate AttachmentImports(env: Environment, files: Files, d: Attachment) {
    && d.file in files && |files[d.file]| == d.byteLength && IsCanonicalSha256(d.sha256)
    && HexCodec.Encode(env.digest(files[d.file])) == d.sha256
  }

  lemma {:induction false} AttachmentsCollect(c: Codec, files: Files, noteId: string, position: nat,
                                              attachments: seq<Attachment>)
    ensures Fold(AttachmentStep(c, files, noteId, position), attachments, [], |attachments|).Ok?
       <==> forall i | 0 <= i < |attachments| :: AttachmentImports(c.env, files, attachments[i])
    ensures Fold(AttachmentStep(c, files, noteId, position), attachments, [], |attachments|).Ok? ==>
              Fold(AttachmentStep(c, files, noteId, position), attachments, [], |attachments|).value
              == Map(AttachmentRowOf(c.env, files, noteId), attachments)
  {
    var f := AttachmentRowOf(c.env, files, noteId);
    var after := (s: seq<Attachment>) => Map(f, s);
    var ok := (d: Attachment) => AttachmentImports(c.env, files, d);
    forall n | 0 <= n < |attachments|
      ensures StepsTo(AttachmentStep(c, files, noteId, position), attachments, ok, after, n)
    {
      MapGrows(f, attachments, n);
    }
    FoldCollects(AttachmentStep(c, files, noteId, position), attachments, ok, after, |attachments|);
    assert attachments[..|attachments|] == attachments;
    assert forall i | 0 <= i < |attachments| :: ok(attachments[i]) == AttachmentImports(c.env, files, attachments[i]);
  }

  // When a note imports: its files are there and match, and no counter overflows.
  predicate NoteImports(c: Codec, files: Files, importedAt: I64, owner: Identity, d: DocumentNote) {
    && d.file in files && c.decodeUtf8(files[d.file]).Some? && IsCanonicalSha256(d.stateSha256)
    && (forall i | 0 <= i < |d.attachments| :: AttachmentImports(c.env, files, d.attachments[i]))
    && NoteRow(owner, d, TextOf(c, files[d.file]), StateChanged(c.env, owner, d, files[d.file]), importedAt).Some?
  }

  function RowOf(c: Codec, files: Files, importedAt: I64, owner: Identity): DocumentNote -> ArchiveNote {
    (d: DocumentNote) =>
      var contents := ContentsOf(files, d.file);
      var row := NoteRow(owner, d, TextOf(c, contents), StateChanged(c.env, owner, d, contents), importedAt);
      if row.Some? then row.value else NoteRow(owner, d, TextOf(c, contents), false, importedAt).value
  }

  lemma {:induction false} NoteCollects(c: Codec, files: Files, importedAt: I64, owner: Identity, d: DocumentNote,
                                        position: nat)
    ensures ImportNote(c, files, importedAt, owner, d, position).Ok? <==> NoteImports(c, files, importedAt, owner, d)
    ensures ImportNote(c, files, importedAt, owner, d, position).Ok? ==>
              ImportNote(c, files, importedAt, owner, d, position).value
              == ImportedNote(RowOf(c, files, importedAt, owner)(d),
                              Map(AttachmentRowOf(c.env, files, d.noteId), d.attachments))
  {
    AttachmentsCollect(c, files, d.noteId, position, d.attachments);
  }

  // ---------------------------------------------------------------- the notes of an owner

  function AclRowsOf(d: DocumentNote): seq<ArchiveAcl> {
    Map(AclRow(d.noteId), d.acl)
  }

  function AttachmentRowsOf(env: Environment, files: Files): DocumentNote -> seq<ArchiveAttachment> {
    (d: DocumentNote) => Map(AttachmentRowOf(env, files, d.noteId), d.attachments)
  }

  function AddIds(ids: map<string, seq<string>>, notes: seq<DocumentNote>): map<string, seq<string>> {
    if notes == [] then ids
    else
      var last := |notes| - 1;
      AddIds(ids, notes[..last])[notes[last].noteId := Map(IdOf, notes[last].attachments)]
  }

  function AddNotes(c: Codec, files: Files, importedAt: I64, owner: Identity, rows: Rows,
                    notes: seq<DocumentNote>): Rows {
    rows.(notes := rows.notes + Map(RowOf(c, files, importedAt, owner), notes),
          acl := rows.acl + Flatten(Map(AclRowsOf, notes)),
          attachments := rows.attachments + Flatten(Map(AttachmentRowsOf(c.env, files), notes)),
          ids := AddIds(rows.ids, notes))
  }

  lemma {:induction false} AddIdsGrows(ids: map<string, seq<string>>, notes: seq<DocumentNote>, n: nat)
    requires n < |notes|
    ensures AddIds(ids, notes[..n + 1]) == AddIds(ids, notes[..n])[notes[n].noteId := Map(IdOf, notes[n].attachments)]
  {
    assert notes[..n + 1][..n] == notes[..n];
  }

  lemma {:induction false} AddNotesGrows(c: Codec, files: Files, importedAt: I64, owner: Identity, rows: Rows,
                                         notes: seq<DocumentNote>, n: nat)
    requires n < |notes|
    ensures AddNotes(c, files, importedAt, owner, rows, notes[..n + 1])
            == AddNote(AddNotes(c, files, importedAt, owner, rows, notes[..n]), notes[n],
                       ImportedNote(RowOf(c, files, importedAt, owner)(notes[n]),
                                    AttachmentRowsOf(c.env, files)(notes[n])))
  {
    ListGrows(rows.notes, RowOf(c, files, importedAt, owner), notes, n);
    PartsGrow(rows.acl, AclRowsOf, notes, n);
    PartsGrow(rows.attachments, AttachmentRowsOf(c.env, files), notes, n);
    AddIdsGrows(rows.ids, notes, n);
  }

  lemma {:induction false} NoteSteps(c: Codec, files: Files, importedAt: I64, owner: Identity, start: Rows,
                                     notes: seq<DocumentNote>, n: nat)
    requires n < |notes|
    ensures var r := NoteStep(c, files, importedAt, owner)(AddNotes(c, files, importedAt, owner, start, notes[..n]),
                                                           notes[n], n + 1);
            && (r.Ok? <==> NoteImports(c, files, importedAt, owner, notes[n]))
            && (r.Ok? ==> r.value == AddNotes(c, files, importedAt, owner, start, notes[..n + 1]))
  {
    NoteStepOn(c, files, importedAt, owner, AddNotes(c, files, importedAt, owner, start, notes[..n]), notes[n], n + 1);
    AddNotesGrows(c, files, importedAt, owner, start, notes, n);
  }

  lemma {:induction false} NoteStepOn(c: Codec, files: Files, importedAt: I64, owner: Identity, before: Rows,
                                      d: DocumentNote, index: nat)
    ensures var r := NoteStep(c, files, importedAt, owner)(before, d, index);
            && (r.Ok? <==> NoteImports(c, files, importedAt, owner, d))
            && (r.Ok? ==>
                  r.value == AddNote(before, d,
                                     ImportedNote(RowOf(c, files, importedAt, owner)(d),
                                                  AttachmentRowsOf(c.env, files)(d))))
  {
    NoteCollects(c, files, importedAt, owner, d, |before.notes| + 1);
  }

  function NotesAdder(c: Codec, files: Files, importedAt: I64, owner: Identity,
                      start: Rows): seq<DocumentNote> -> Rows {
    (notes: seq<DocumentNote>) => AddNotes(c, files, importedAt, owner, start, notes)
  }

  function NoteChecker(c: Codec, files: Files, importedAt: I64, owner: Identity): DocumentNote -> bool {
    (d: DocumentNote) => NoteImports(c, files, importedAt, owner, d)
  }

  lemma {:induction false} NotesCollect(c: Codec, files: Files, importedAt: I64, owner: Identity, start: Rows,
                                        notes: seq<DocumentNote>)
    ensures var r := Fold(NoteStep(c, files, importedAt, owner), notes, start, |notes|);
            && (r.Ok? <==> forall i | 0 <= i < |notes| :: NoteChecker(c, files, importedAt, owner)(notes[i]))
            && (r.Ok? ==> r.value == AddNotes(c, files, importedAt, owner, start, notes))
  {
    var step, ok := NoteStep(c, files, importedAt, owner), NoteChecker(c, files, importedAt, owner);
    var after := NotesAdder(c, files, importedAt, owner, start);
    forall n | 0 <= n < |notes|
      ensures StepsTo(step, notes, ok, after, n)
    {
      NoteSteps(c, files, importedAt, owner, start, notes, n);
    }
    FoldCollects(step, notes, ok, after, |notes|);
    AddNoNotes(c, files, importedAt, owner, start);
    assert notes[..|notes|] == notes;
  }

  lemma {:induction false} AddNoNotes(c: Codec, files: Files, importedAt: I64, owner: Identity, start: Rows)
    ensures AddNotes(c, files, importedAt, owner, start, []) == start
  {
    assert start.notes + [] == start.notes && start.acl + [] == start.acl
           && start.attachments + [] == start.attachments;
  }

  // ---------------------------------------------------------------- the bibliography of an owner

  // Every item that the manifest lists is found in the file.
  predicate BibliographyImports(c: Codec, files: Files, owner: DocumentOwner) {
    owner.bibliographyFile in files &&
    var values := c.csl.decodeArray(files[owner.bibliographyFile]);
    values.Some? && forall i | 0 <= i < |owner.bibliography| ::
        FindValue(values.value, owner.bibliography[i].citationKey).Some?
  }

  function ItemRowOf(owner: Identity, values: seq<Json>): DocumentItem -> ArchiveItem {
    (d: DocumentItem) =>
      var value := FindValue(values, d.citationKey);
      ItemRow(owner, d, if value.Some? then value.value else Null)
  }

  function ValuesIn(c: Codec, files: Files, path: string): seq<Json> {
    var values := c.csl.decodeArray(ContentsOf(files, path));
    if values.Some? then values.value else []
  }

  function AddItems(c: Codec, files: Files, owner: DocumentOwner, rows: Rows, items: seq<DocumentItem>): Rows {
    rows.(items := rows.items + Map(ItemRowOf(IdentityOf(owner), ValuesIn(c, files, owner.bibliographyFile)), items))
  }

  lemma {:induction false} ItemsCollect(owner: Identity, values: seq<Json>, position: nat, start: Rows,
                                        items: seq<DocumentItem>)
    ensures var r := Fold(ItemStep(owner, values, position), items, start, |items|);
            && (r.Ok? <==> forall i | 0 <= i < |items| :: FindValue(values, items[i].citationKey).Some?)
            && (r.Ok? ==> r.value == start.(items := start.items + Map(ItemRowOf(owner, values), items)))
  {
    var f := ItemRowOf(owner, values);
    var after := (s: seq<DocumentItem>) => start.(items := start.items + Map(f, s));
    var ok := (d: DocumentItem) => FindValue(values, d.citationKey).Some?;
    forall n | 0 <= n < |items|
      ensures StepsTo(ItemStep(owner, values, position), items, ok, after, n)
    {
      MapGrows(f, items, n);
      Assoc3(start.items, Map(f, items[..n]), [f(items[n])]);
    }
    FoldCollects(ItemStep(owner, values, position), items, ok, after, |items|);
    assert start.items + [] == start.items;
    assert items[..|items|] == items;
    assert forall i | 0 <= i < |items| :: ok(items[i]) == FindValue(values, items[i].citationKey).Some?;
  }

  lemma {:induction false} BibliographyCollects(c: Codec, files: Files, owner: DocumentOwner, start: Rows,
                                                position: nat)
    ensures var r := ImportBibliography(c, files, owner, start, position);
            && (r.Ok? <==> BibliographyImports(c, files, owner))
            && (r.Ok? ==> r.value == AddItems(c, files, owner, start, owner.bibliography))
  {
    if owner.bibliographyFile in files && c.csl.decodeArray(files[owner.bibliographyFile]).Some? {
      ItemsCollect(IdentityOf(owner), c.csl.decodeArray(files[owner.bibliographyFile]).value, position, start,
                   owner.bibliography);
    }
  }

  // ---------------------------------------------------------------- all owners

  predicate NotesImport(c: Codec, files: Files, importedAt: I64, owner: Identity, notes: seq<DocumentNote>) {
    forall i | 0 <= i < |notes| :: NoteImports(c, files, importedAt, owner, notes[i])
  }

  predicate OwnerImports(c: Codec, files: Files, importedAt: I64, owner: DocumentOwner) {
    NotesImport(c, files, importedAt, IdentityOf(owner), owner.notes) && BibliographyImports(c, files, owner)
  }

  function AddOwner(c: Codec, files: Files, importedAt: I64, rows: Rows, owner: DocumentOwner): Rows {
    AddItems(c, files, owner, AddNotes(c, files, importedAt, IdentityOf(owner), rows, owner.notes), owner.bibliography)
  }

  function AddOwners(c: Codec, files: Files, importedAt: I64, owners: seq<DocumentOwner>): Rows {
    if owners == [] then NO_ROWS
    else
      var last := |owners| - 1;
      AddOwner(c, files, importedAt, AddOwners(c, files, importedAt, owners[..last]), owners[last])
  }

  function OwnersAdder(c: Codec, files: Files, importedAt: I64): seq<DocumentOwner> -> Rows {
    (owners: seq<DocumentOwner>) => AddOwners(c, files, importedAt, owners)
  }

  function OwnerChecker(c: Codec, files: Files, importedAt: I64): DocumentOwner -> bool {
    (owner: DocumentOwner) => OwnerImports(c, files, importedAt, owner)
  }

  lemma {:induction false} OwnerSteps(c: Codec, files: Files, importedAt: I64, owners: seq<DocumentOwner>, n: nat)
    requires n < |owners|
    ensures StepsTo(OwnerStep(c, files, importedAt), owners, OwnerChecker(c, files, importedAt),
                    OwnersAdder(c, files, importedAt), n)
  {
    OwnerStepOn(c, files, importedAt, AddOwners(c, files, importedAt, owners[..n]), owners[n], n + 1);
    AddOwnersGrows(c, files, importedAt, owners, n);
  }

  lemma {:induction false} AddOwnersGrows(c: Codec, files: Files, importedAt: I64, owners: seq<DocumentOwner>, n: nat)
    requires n < |owners|
    ensures AddOwners(c, files, importedAt, owners[..n + 1])
            == AddOwner(c, files, importedAt, AddOwners(c, files, importedAt, owners[..n]), owners[n])
  {
    assert owners[..n + 1][..n] == owners[..n];
  }

  lemma {:induction false} NotesAreChecked(c: Codec, files: Files, importedAt: I64, owner: Identity,
                                           notes: seq<DocumentNote>)
    ensures (forall i | 0 <= i < |notes| :: NoteChecker(c, files, importedAt, owner)(notes[i]))
       <==> NotesImport(c, files, importedAt, owner, notes)
  {
    assert forall i | 0 <= i < |notes| ::
        NoteChecker(c, files, importedAt, owner)(notes[i]) == NoteImports(c, files, importedAt, owner, notes[i]);
  }

  lemma {:induction false} OwnerStepOn(c: Codec, files: Files, importedAt: I64, start: Rows, owner: DocumentOwner,
                                       position: nat)
    ensures var r := OwnerStep(c, files, importedAt)(start, owner, position);
            && (r.Ok? <==> OwnerImports(c, files, importedAt, owner))
            && (r.Ok? ==> r.value == AddOwner(c, files, importedAt, start, owner))
  {
    NotesCollect(c, files, importedAt, IdentityOf(owner), start, owner.notes);
    NotesAreChecked(c, files, importedAt, IdentityOf(owner), owner.notes);
    BibliographyCollects(c, files, owner, AddNotes(c, files, importedAt, IdentityOf(owner), start, owner.notes),
                         position);
  }

  lemma {:induction false} OwnersCollect(c: Codec, files: Files, importedAt: I64, owners: seq<DocumentOwner>)
    ensures var r := Fold(OwnerStep(c, files, importedAt), owners, NO_ROWS, |owners|);
            && (r.Ok? <==> forall i | 0 <= i < |owners| :: OwnerChecker(c, files, importedAt)(owners[i]))
            && (r.Ok? ==> r.value == AddOwners(c, files, importedAt, owners))
  {
    forall n | 0 <= n < |owners|
      ensures StepsTo(OwnerStep(c, files, importedAt), owners, OwnerChecker(c, files, importedAt),
                      OwnersAdder(c, files, importedAt), n)
    {
      OwnerSteps(c, files, importedAt, owners, n);
    }
    FoldCollects(OwnerStep(c, files, importedAt), owners, OwnerChecker(c, files, importedAt),
                 OwnersAdder(c, files, importedAt), |owners|);
    assert owners[..|owners|] == owners;
  }

  // An import succeeds exactly when every owner's notes are there and consistent and every item is found
  // in the owner's bibliography file, and then everything is in canonical order, one row for each note
  // and each item.
  lemma {:induction false} ImportSucceedsIff(c: Codec, manifest: Manifest, files: Files, packageVersion: string,
                                             importedAt: I64)
    ensures ImportOf(c, manifest, files, packageVersion, importedAt).Ok?
       <==> && manifest.format == DOCUMENT_EXPORT_FORMAT
            && forall i | 0 <= i < |manifest.owners| :: OwnerImports(c, files, importedAt, manifest.owners[i])
    ensures ImportOf(c, manifest, files, packageVersion, importedAt).Ok? ==>
              ImportOf(c, manifest, files, packageVersion, importedAt).value
              == RebuildingOf(AddOwners(c, files, importedAt, manifest.owners), packageVersion)
  {
    OwnersCollect(c, files, importedAt, manifest.owners);
    OwnersAreChecked(c, files, importedAt, manifest.owners);
  }

  lemma {:induction false} OwnersAreChecked(c: Codec, files: Files, importedAt: I64, owners: seq<DocumentOwner>)
    ensures (forall i | 0 <= i < |owners| :: OwnerChecker(c, files, importedAt)(owners[i]))
       <==> (forall i | 0 <= i < |owners| :: OwnerImports(c, files, importedAt, owners[i]))
  {
    assert forall i | 0 <= i < |owners| ::
           OwnerChecker(c, files, importedAt)(owners[i]) == OwnerImports(c, files, importedAt, owners[i]);
  }

  // ---------------------------------------------------------------- principals

  predicate IsReviewer(f: ReviewFields, i: Identity) {
    f.issuer == Some(i.issuer) && f.subject == Some(i.subject)
  }

  // Some row of the archive names the identity: as creator, editor, reviewer, grantee or owner of an item.
  predicate Names(r: Rebuilding, i: Identity)
    requires HasParts(r.archive)
  {
    || (exists n | n in r.archive.notes ::
                n.creator == i || (n.provenance.Some? && IsReviewer(n.provenance.value.review, i)))
    || (exists e | e in r.archive.revisions.value :: e.changedBy == i || IsReviewer(e.review, i))
    || (exists e | e in r.archive.acl :: e.identity == i)
    || (exists x | x in r.archive.attachments.value :: x.createdBy == i)
    || exists x | x in r.items :: x.owner == i
  }

  // Some collected row names the identity.
  predicate RowsName(rows: Rows, i: Identity) {
    || (exists n | n in rows.notes :: i in NoteIdentities(n))
    || (exists e | e in rows.acl :: e.identity == i)
    || (exists x | x in rows.attachments :: x.createdBy == i)
    || exists x | x in rows.items :: x.owner == i
  }

  lemma {:induction false} UsedAreNamed(rows: Rows, i: Identity)
    ensures i in UsedIdentities(rows) <==> RowsName(rows, i)
  {
    FlattenMembers(NoteIdentities, rows.notes, i);
    assert (exists k | 0 <= k < |rows.notes| :: i in NoteIdentities(rows.notes[k]))
           <==> (exists n | n in rows.notes :: i in NoteIdentities(n));
    InMap(AclIdentity, rows.acl, i);
    InMap(CreatorIdentity, rows.attachments, i);
    InMap(ItemIdentity, rows.items, i);
  }

  lemma {:induction false} SinglesDeclareOnce(rows: Rows)
    ensures var principals := SinglePrincipals(rows);
            && UniqueKeys(principals, PrincipalKey)
            && (forall p | p in principals :: p == Lone(p.primary))
            && forall i :: Lone(i) in principals <==> RowsName(rows, i)
  {
    var used := UsedIdentities(rows);
    OnceOf(used);
    LoneOf(Once(used));
    forall i
      ensures i in used <==> RowsName(rows, i)
    {
      UsedAreNamed(rows, i);
    }
  }

  lemma {:induction false} LoneOf(once: seq<Identity>)
    requires UniqueKeys(once, IdentityKey)
    ensures UniqueKeys(Map(Lone, once), PrincipalKey)
    ensures forall p | p in Map(Lone, once) :: p == Lone(p.primary)
    ensures forall i :: Lone(i) in Map(Lone, once) <==> i in once
  {
    var principals := Map(Lone, once);
    forall p | p in principals
      ensures p == Lone(p.primary) && p.primary in once
    {
      var k := MapIndex(Lone, once, p);
      assert once[k] in once;
    }
    forall i | i in once
      ensures Lone(i) in principals
    {
      var k :| 0 <= k < |once| && once[k] == i;
      assert principals[k] == Lone(i);
    }
  }

  lemma {:induction false} LoneAliases(principals: seq<ArchivePrincipal>)
    requires forall p | p in principals :: p == Lone(p.primary)
    ensures CanonicalPrincipals(principals) == Sort(principals, PrincipalKey)
  {
    forall i | 0 <= i < |principals|
      ensures SortAliases(principals[i]) == principals[i]
    {
      assert principals[i] in principals;
    }
    assert Map(SortAliases, principals) == principals;
  }

  // Who is named by the rows is named by what is made of them.
  lemma {:induction false} ArchiveNames(rows: Rows, packageVersion: string, i: Identity)
    ensures Names(RebuildingOf(rows, packageVersion), i) <==> RowsName(rows, i)
  {
    var r := RebuildingOf(rows, packageVersion);
    SortMembers(rows.notes, NoteKey);
    SortMembers(rows.acl, ArchiveAclKey);
    SortMembers(rows.attachments, ArchiveAttachmentKey);
    SortMembers(rows.items, ItemIdKey);
    NoteNames(rows.notes, r.archive.notes, i);
    forall e | e in r.archive.revisions.value && (e.changedBy == i || IsReviewer(e.review, i))
      ensures exists n | n in rows.notes :: i in NoteIdentities(n)
    {
      RevisionNames(rows, e, i);
    }
  }

  lemma {:induction false} NoteNames(notes: seq<ArchiveNote>, sorted: seq<ArchiveNote>, i: Identity)
    requires forall n :: n in sorted <==> n in notes
    ensures (exists n | n in notes :: i in NoteIdentities(n))
       <==> (exists n | n in sorted ::
                   n.creator == i || (n.provenance.Some? && IsReviewer(n.provenance.value.review, i)))
  {
    assert forall n ::
        i in NoteIdentities(n)
        <==> n.creator == i || (n.provenance.Some? && IsReviewer(n.provenance.value.review, i));
  }

  lemma {:induction false} RevisionNames(rows: Rows, e: ArchiveRevision, i: Identity)
    requires e in CanonicalRevisions(Map(RevisionRow(rows.ids), rows.notes))
             && (e.changedBy == i || IsReviewer(e.review, i))
    ensures exists n | n in rows.notes :: i in NoteIdentities(n)
  {
    RevisionComesFromNote(rows, e);
    var n :| n in rows.notes && e.changedBy == n.creator
        && (n.provenance.Some? ==> e.review == n.provenance.value.review)
             && (n.provenance.None? ==> e.review.issuer.None?);
    assert i in NoteIdentities(n);
  }

  lemma {:induction false} RevisionComesFromNote(rows: Rows, e: ArchiveRevision)
    requires e in CanonicalRevisions(Map(RevisionRow(rows.ids), rows.notes))
    ensures exists n | n in rows.notes ::
              && e.changedBy == n.creator && (n.provenance.Some? ==> e.review == n.provenance.value.review)
              && (n.provenance.None? ==> e.review.issuer.None?)
  {
    var entries := Map(RevisionRow(rows.ids), rows.notes);
    SortMembers(Map(SortIds, entries), ArchiveRevisionKey);
    var j := MapIndex(SortIds, entries, e);
    assert entries[j] == RevisionRow(rows.ids)(rows.notes[j]);
    assert rows.notes[j] in rows.notes;
  }

  // The rebuilt table declares exactly the identities that are named, each once and alone.
  lemma {:induction false} EachIdentityIsDeclaredOnce(c: Codec, manifest: Manifest, files: Files,
                                                      packageVersion: string, importedAt: I64)
    requires ImportOf(c, manifest, files, packageVersion, importedAt).Ok?
    ensures var r := ImportOf(c, manifest, files, packageVersion, importedAt).value;
            && HasParts(r.archive) && r.archive.principals.Some?
            && UniqueKeys(r.archive.principals.value, PrincipalKey)
            && (forall p | p in r.archive.principals.value :: p.aliases == [])
            && forall i :: Lone(i) in r.archive.principals.value <==> Names(r, i)
  {
    ImportSucceedsIff(c, manifest, files, packageVersion, importedAt);
    RowsDeclareOnce(AddOwners(c, files, importedAt, manifest.owners), packageVersion);
  }

  lemma {:induction false} RowsDeclareOnce(rows: Rows, packageVersion: string)
    ensures var r := RebuildingOf(rows, packageVersion);
            && UniqueKeys(r.archive.principals.value, PrincipalKey)
            && (forall p | p in r.archive.principals.value :: p.aliases == [])
            && forall i :: Lone(i) in r.archive.principals.value <==> Names(r, i)
  {
    var principals := SinglePrincipals(rows);
    SinglesDeclareOnce(rows);
    LoneAliases(principals);
    UniqueKeysOfSort(principals, PrincipalKey);
    SortMembers(principals, PrincipalKey);
    forall i
      ensures Lone(i) in Sort(principals, PrincipalKey) <==> Names(RebuildingOf(rows, packageVersion), i)
    {
      ArchiveNames(rows, packageVersion, i);
    }
  }
}
