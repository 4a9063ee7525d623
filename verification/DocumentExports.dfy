// Exporting the live notes and the bibliography of a snapshot as documents (`create_document_export` and
// `OwnerBuilder::build` in crates/marginalis-archive/src/documents.rs).
module DocumentExports {
  import opened Options
  import opened Domain
  import opened Unicode
  import opened Sequences
  import opened Sorting
  import opened Snapshots
  import opened Archives
  import opened ArchiveContents
  import opened Flattening
  import opened Bibliographies
  import opened Identities
  import opened DocumentPaths
  import opened StateHash
  import HexCodec

  const DOCUMENT_EXPORT_FORMAT := "marginalis-documents-3"

  // Functions that documents rely on beside those of archives.
  datatype Codec = Codec(env: Environment, decodeUtf8: seq<Byte> -> Option<string>, csl: Csl)

  datatype File = File(path: string, contents: seq<Byte>)

  datatype DocumentNote = DocumentNote(
    file: string, noteId: string, title: string, tags: seq<string>, createdAt: I64, updatedAt: I64, revision: I64,
    stateSha256: string, provenance: Provenance, acl: seq<AclEntry>, attachments: seq<Attachment>)

  // The data of an item are in the bibliography file.
  datatype DocumentItem = DocumentItem(citationKey: string, itemId: string, createdAt: I64, updatedAt: I64,
                                       revision: I64)

  datatype DocumentOwner = DocumentOwner(
    issuer: string, subject: string, directory: string, bibliographyFile: string, notes: seq<DocumentNote>,
    bibliography: seq<DocumentItem>)

  datatype Manifest = Manifest(format: string, packageVersion: string, profileVersion: nat, owners: seq<DocumentOwner>)

  datatype Export = Export(manifest: Manifest, files: seq<File>)

  // ---------------------------------------------------------------- grouping

  function IsLive(n: Note): bool { n.deletedAt.None? }

  function OwnerOf(n: Note): Identity { n.owner.primary }

  function ItemOwner(item: BibliographyItem): Identity { item.owner.primary }

  function Owned<T>(ownerOf: T -> Identity, owner: Identity): T -> bool {
    (x: T) => ownerOf(x) == owner
  }

  function LiveNotes(s: Snapshot): seq<Note> {
    Filter(IsLive, s.notes)
  }

  function NoteIdKey(n: Note): Key { [Points(n.noteId)] }

  function CitationKey(item: BibliographyItem): Key { [Points(item.citationKey)] }

  function OwnersNamed(s: Snapshot, items: seq<BibliographyItem>): seq<Identity> {
    Map(OwnerOf, LiveNotes(s)) + Map(ItemOwner, items)
  }

  // The owners of live notes and of items in the order of their identities.
  function Owners(s: Snapshot, items: seq<BibliographyItem>): seq<Identity> {
    Once(OwnersNamed(s, items))
  }

  function NotesOf(s: Snapshot, owner: Identity): seq<Note> {
    Sort(Filter(Owned(OwnerOf, owner), LiveNotes(s)), NoteIdKey)
  }

  function ItemsOf(items: seq<BibliographyItem>, owner: Identity): seq<BibliographyItem> {
    Sort(Filter(Owned(ItemOwner, owner), items), CitationKey)
  }

  // ---------------------------------------------------------------- one note

  function GrantsOn(noteId: string): NoteAcl -> bool {
    (e: NoteAcl) => e.noteId == noteId
  }

  function DocumentAcl(e: NoteAcl): AclEntry {
    AclEntry(e.principal.primary.issuer, e.principal.primary.subject, e.permission)
  }

  function FindAttachment(attachments: seq<StoredAttachment>, attachmentId: string): Option<StoredAttachment> {
    if attachments == [] then None
    else if attachments[0].attachmentId == attachmentId then Some(attachments[0])
    else FindAttachment(attachments[1..], attachmentId)
  }

  // The attachments that references name. The source stops when one is missing; in a covered snapshot
  // none is.
  function Found(attachments: seq<StoredAttachment>, references: seq<AttachmentReference>): seq<StoredAttachment> {
    if references == [] then []
    else
      var first := FindAttachment(attachments, references[0].attachmentId);
      (if first.Some? then [first.value] else []) + Found(attachments, references[1..])
  }

  function CurrentAttachments(s: Snapshot, n: Note): seq<StoredAttachment> {
    Found(s.attachments, Filter(RefersToRevision(n.noteId, n.revision), s.references))
  }

  function AttachmentDocument(directory: string): StoredAttachment -> Attachment {
    (a: StoredAttachment) =>
      Attachment(AttachmentPath(directory, a.attachmentId, a.fileName), a.attachmentId, a.fileName, a.mediaType,
                 |a.bytes|,
                 HexCodec.Encode(a.sha256), a.createdAt, a.createdBy.primary.issuer, a.createdBy.primary.subject)
  }

  function AttachmentFile(directory: string): StoredAttachment -> File {
    (a: StoredAttachment) => File(AttachmentPath(directory, a.attachmentId, a.fileName), a.bytes)
  }

  function DirectoryOf(owner: Identity): string {
    OwnerDirectory(owner.issuer, owner.subject)
  }

  function HashOf(env: Environment, state: State): string {
    HexCodec.Encode(env.digest(Stream(state)))
  }

  function DocumentAcls(s: Snapshot, n: Note): seq<AclEntry> {
    Map(DocumentAcl, Filter(GrantsOn(n.noteId), s.acl))
  }

  function DocumentAttachments(s: Snapshot, n: Note): seq<Attachment> {
    Map(AttachmentDocument(DirectoryOf(n.owner.primary)), CurrentAttachments(s, n))
  }

  function StateOf(s: Snapshot, n: Note): State {
    State(n.owner.primary.issuer, n.owner.primary.subject, Utf8(n.source), DocumentAcls(s, n),
          DocumentAttachments(s, n))
  }

  function PathOf(n: Note): string {
    NotePath(DirectoryOf(n.owner.primary), n.title, n.noteId)
  }

  function NoteDocument(env: Environment, s: Snapshot): Note -> DocumentNote {
    (n: Note) =>
      DocumentNote(PathOf(n), n.noteId, n.title, n.tags, n.createdAt, n.updatedAt, n.revision,
                   HashOf(env, StateOf(s, n)), Provenance(n.createdVia, WriteReview(n.review)),
                   DocumentAcls(s, n), DocumentAttachments(s, n))
  }

  function NoteFiles(s: Snapshot): Note -> seq<File> {
    (n: Note) => [File(PathOf(n), Utf8(n.source))]
        + Map(AttachmentFile(DirectoryOf(n.owner.primary)), CurrentAttachments(s, n))
  }

  // ---------------------------------------------------------------- one owner, and all

  function ItemDocument(item: BibliographyItem): DocumentItem {
    DocumentItem(item.citationKey, item.itemId, item.createdAt, item.updatedAt, item.revision)
  }

  // The bibliography of an owner, sorted by citation key: one array, also when it is empty.
  function BibliographyFile(csl: Csl, items: seq<BibliographyItem>): Identity -> File {
    (o: Identity) => File(BibliographyPath(DirectoryOf(o)), csl.encodeArray(Map(ValueOf(csl), ItemsOf(items, o))))
  }

  function OwnerDocument(env: Environment, s: Snapshot, items: seq<BibliographyItem>): Identity -> DocumentOwner {
    (o: Identity) =>
      DocumentOwner(o.issuer, o.subject, DirectoryOf(o), BibliographyPath(DirectoryOf(o)),
                    Map(NoteDocument(env, s), NotesOf(s, o)), Map(ItemDocument, ItemsOf(items, o)))
  }

  function OwnerFiles(csl: Csl, s: Snapshot, items: seq<BibliographyItem>): Identity -> seq<File> {
    (o: Identity) => Flatten(Map(NoteFiles(s), NotesOf(s, o))) + [BibliographyFile(csl, items)(o)]
  }

  function ExportOf(c: Codec, s: Snapshot, items: seq<BibliographyItem>): Export {
    Export(Manifest(DOCUMENT_EXPORT_FORMAT, c.env.packageVersion, ARCHIVE_NOTE_PROFILE_VERSION,
                    Map(OwnerDocument(c.env, s, items), Owners(s, items))),
           Flatten(Map(OwnerFiles(c.csl, s, items), Owners(s, items))))
  }

  // ---------------------------------------------------------------- the map of owners

  datatype OwnerBuilder = OwnerBuilder(notes: seq<Note>, bibliography: seq<BibliographyItem>)

  const NEW_OWNER := OwnerBuilder([], [])

  type OwnerMap = map<Identity, OwnerBuilder>

  // The entry, inserted empty when it is missing.
  function Entry(owners: OwnerMap, owner: Identity): OwnerBuilder {
    if owner in owners then owners[owner] else NEW_OWNER
  }

  function BuilderOf(live: seq<Note>, items: seq<BibliographyItem>, owner: Identity): OwnerBuilder {
    OwnerBuilder(Filter(Owned(OwnerOf, owner), live), Filter(Owned(ItemOwner, owner), items))
  }

  // Every owner of a note or an item has an entry with these, and nobody else has one.
  ghost predicate GroupsBy(owners: OwnerMap, live: seq<Note>, items: seq<BibliographyItem>) {
    && (forall o :: Entry(owners, o) == BuilderOf(live, items, o))
    && forall o | o in owners :: owners[o] != NEW_OWNER
  }

  lemma {:induction false} AddNoteToOwner(owners: OwnerMap, live: seq<Note>, note: Note)
    requires GroupsBy(owners, live, [])
    ensures var builder := Entry(owners, OwnerOf(note));
            GroupsBy(owners[OwnerOf(note) := builder.(notes := builder.notes + [note])], live + [note], [])
  {
    var builder := Entry(owners, OwnerOf(note));
    var more := owners[OwnerOf(note) := builder.(notes := builder.notes + [note])];
    forall o
      ensures Entry(more, o) == BuilderOf(live + [note], [], o)
    {
      FilterAppend(Owned(OwnerOf, o), live, note);
      assert Entry(owners, o) == BuilderOf(live, [], o);
    }
  }

  lemma {:induction false} AddItemToOwner(owners: OwnerMap, live: seq<Note>, items: seq<BibliographyItem>,
                                          item: BibliographyItem)
    requires GroupsBy(owners, live, items)
    ensures var builder := Entry(owners, ItemOwner(item));
            GroupsBy(owners[ItemOwner(item) := builder.(bibliography := builder.bibliography + [item])], live,
                     items + [item])
  {
    var builder := Entry(owners, ItemOwner(item));
    var more := owners[ItemOwner(item) := builder.(bibliography := builder.bibliography + [item])];
    forall o
      ensures Entry(more, o) == BuilderOf(live, items + [item], o)
    {
      FilterAppend(Owned(ItemOwner, o), items, item);
      assert Entry(owners, o) == BuilderOf(live, items, o);
    }
  }

  method GroupNotes(notes: seq<Note>) returns (owners: OwnerMap)
    ensures GroupsBy(owners, Filter(IsLive, notes), [])
  {
    owners := map[];
    assert notes[..0] == [];
    for i := 0 to |notes|
      invariant GroupsBy(owners, Filter(IsLive, notes[..i]), [])
    {
      var note := notes[i];
      assert notes[..i + 1] == notes[..i] + [note];
      FilterAppend(IsLive, notes[..i], note);
      if note.deletedAt.Some? {
        assert Filter(IsLive, notes[..i]) + [] == Filter(IsLive, notes[..i]);
        continue;
      }
      AddNoteToOwner(owners, Filter(IsLive, notes[..i]), note);
      var builder := Entry(owners, OwnerOf(note));
      owners := owners[OwnerOf(note) := builder.(notes := builder.notes + [note])];
    }
    assert notes[..|notes|] == notes;
  }

  // The two loops: the live notes and the items of each owner, in the order of the snapshot.
  method GroupByOwner(s: Snapshot, items: seq<BibliographyItem>) returns (owners: OwnerMap)
    ensures GroupsBy(owners, LiveNotes(s), items)
  {
    owners := GroupNotes(s.notes);
    assert items[..0] == [];
    for i := 0 to |items|
      invariant GroupsBy(owners, LiveNotes(s), items[..i])
    {
      var item := items[i];
      assert items[..i + 1] == items[..i] + [item];
      AddItemToOwner(owners, LiveNotes(s), items[..i], item);
      var builder := Entry(owners, ItemOwner(item));
      owners := owners[ItemOwner(item) := builder.(bibliography := builder.bibliography + [item])];
    }
    assert items[..|items|] == items;
  }

  lemma {:induction false} OwnsSome<T>(ownerOf: T -> Identity, s: seq<T>, o: Identity)
    ensures Filter(Owned(ownerOf, o), s) != [] <==> o in Map(ownerOf, s)
  {
    FilterMembers(Owned(ownerOf, o), s);
    var kept := Filter(Owned(ownerOf, o), s);
    assert kept != [] ==> kept[0] in kept;
    forall k | 0 <= k < |s| && ownerOf(s[k]) == o
      ensures s[k] in kept
    {
      assert s[k] in s;
    }
    if kept != [] {
      var k :| 0 <= k < |s| && s[k] == kept[0];
      assert Map(ownerOf, s)[k] == o;
    }
  }

  lemma {:induction false} KeysAreOwners(owners: OwnerMap, s: Snapshot, items: seq<BibliographyItem>)
    requires GroupsBy(owners, LiveNotes(s), items)
    ensures forall o :: o in OwnersNamed(s, items) <==> o in owners.Keys
  {
    forall o
      ensures o in OwnersNamed(s, items) <==> o in owners
    {
      OwnsSome(OwnerOf, LiveNotes(s), o);
      OwnsSome(ItemOwner, items, o);
      assert Entry(owners, o) == BuilderOf(LiveNotes(s), items, o);
    }
  }

  // ---------------------------------------------------------------- documents and files

  // Documents and files of the elements before the n-th.
  ghost predicate BuiltUpTo<T, D>(document: T -> D, itsFiles: T -> seq<File>, s: seq<T>, n: nat, documents: seq<D>,
                                  files: seq<File>)
    requires n <= |s|
  {
    documents == Map(document, s[..n]) && files == Flatten(Map(itsFiles, s[..n]))
  }

  lemma {:induction false} BuiltOneMore<T, D>(document: T -> D, itsFiles: T -> seq<File>, s: seq<T>, n: nat,
                                              documents: seq<D>, files: seq<File>, d: D, written: seq<File>)
    requires n < |s| && BuiltUpTo(document, itsFiles, s, n, documents, files)
    requires d == document(s[n]) && written == itsFiles(s[n])
    ensures BuiltUpTo(document, itsFiles, s, n + 1, documents + [d], files + written)
  {
    MapGrows(document, s, n);
    FlattenMapGrows(itsFiles, s, n);
  }

  lemma {:induction false} BuiltAll<T, D>(document: T -> D, itsFiles: T -> seq<File>, s: seq<T>, documents: seq<D>,
                                          files: seq<File>)
    requires BuiltUpTo(document, itsFiles, s, |s|, documents, files)
    ensures documents == Map(document, s) && files == Flatten(Map(itsFiles, s))
  {
    assert s[..|s|] == s;
  }

  // The notes of one owner: a document each, and the files of the note and of its attachments.
  method BuildNotes(env: Environment, s: Snapshot, notes: seq<Note>)
    returns (documents: seq<DocumentNote>, files: seq<File>)
    ensures documents == Map(NoteDocument(env, s), notes)
    ensures files == Flatten(Map(NoteFiles(s), notes))
  {
    documents, files := [], [];
    assert notes[..0] == [];
    for i := 0 to |notes|
      invariant BuiltUpTo(NoteDocument(env, s), NoteFiles(s), notes, i, documents, files)
    {
      var note := notes[i];
      var document, written := BuildNote(env, s, note);
      BuiltOneMore(NoteDocument(env, s), NoteFiles(s), notes, i, documents, files, document, written);
      documents, files := documents + [document], files + written;
    }
    BuiltAll(NoteDocument(env, s), NoteFiles(s), notes, documents, files);
  }

  method BuildNote(env: Environment, s: Snapshot, note: Note) returns (document: DocumentNote, files: seq<File>)
    ensures document == NoteDocument(env, s)(note)
    ensures files == NoteFiles(s)(note)
  {
    var directory := DirectoryOf(note.owner.primary);
    var current := CurrentAttachments(s, note);
    files := [File(PathOf(note), Utf8(note.source))];
    var attachments: seq<Attachment> := [];
    for k := 0 to |current|
      invariant attachments == Map(AttachmentDocument(directory), current[..k])
      invariant files == [File(PathOf(note), Utf8(note.source))] + Map(AttachmentFile(directory), current[..k])
    {
      MapGrows(AttachmentDocument(directory), current, k);
      MapGrows(AttachmentFile(directory), current, k);
      Assoc3([File(PathOf(note), Utf8(note.source))], Map(AttachmentFile(directory), current[..k]),
             [AttachmentFile(directory)(current[k])]);
      files := files + [AttachmentFile(directory)(current[k])];
      attachments := attachments + [AttachmentDocument(directory)(current[k])];
    }
    assert current[..|current|] == current;
    var acl := DocumentAcls(s, note);
    document := DocumentNote(PathOf(note), note.noteId, note.title, note.tags, note.createdAt, note.updatedAt,
                             note.revision,
                             HashOf(env, State(note.owner.primary.issuer, note.owner.primary.subject, Utf8(note.source),
                                               acl, attachments)),
                             Provenance(note.createdVia, WriteReview(note.review)), acl, attachments);
  }

  lemma {:induction false} OwnerDocumentIs(env: Environment, s: Snapshot, items: seq<BibliographyItem>, o: Identity)
    ensures OwnerDocument(env, s, items)(o)
            == DocumentOwner(o.issuer, o.subject, DirectoryOf(o), BibliographyPath(DirectoryOf(o)),
                             Map(NoteDocument(env, s), NotesOf(s, o)), Map(ItemDocument, ItemsOf(items, o)))
  {
  }

  lemma {:induction false} OwnerFilesIs(csl: Csl, s: Snapshot, items: seq<BibliographyItem>, o: Identity)
    ensures OwnerFiles(csl, s, items)(o) == Flatten(Map(NoteFiles(s), NotesOf(s, o)))
            + [BibliographyFile(csl, items)(o)]
  {
  }

  // The document and the files of one entry of the map.
  method BuildOwner(c: Codec, s: Snapshot, ghost items: seq<BibliographyItem>, owner: Identity, builder: OwnerBuilder)
    returns (document: DocumentOwner, files: seq<File>)
    requires builder == BuilderOf(LiveNotes(s), items, owner)
    ensures document == OwnerDocument(c.env, s, items)(owner)
    ensures files == OwnerFiles(c.csl, s, items)(owner)
  {
    var directory := DirectoryOf(owner);
    var notes, bibliography := Sort(builder.notes, NoteIdKey), Sort(builder.bibliography, CitationKey);
    assert notes == NotesOf(s, owner);
    assert bibliography == ItemsOf(items, owner);
    var documents, written := BuildNotes(c.env, s, notes);
    OwnerDocumentIs(c.env, s, items, owner);
    OwnerFilesIs(c.csl, s, items, owner);
    files := written + [File(BibliographyPath(directory), c.csl.encodeArray(Map(ValueOf(c.csl), bibliography)))];
    document := DocumentOwner(owner.issuer, owner.subject, directory, BibliographyPath(directory), documents,
                              Map(ItemDocument, bibliography));
  }

  // The entries of the map in the order of their keys.
  method CreateDocumentExport(c: Codec, s: Snapshot, items: seq<BibliographyItem>) returns (r: Export)
    ensures r == ExportOf(c, s, items)
  {
    var groups := GroupByOwner(s, items);
    KeysAreOwners(groups, s, items);
    var owners := Ordered(groups.Keys, OwnersNamed(s, items));
    OnceOf(OwnersNamed(s, items));
    var documents, files := BuildOwners(c, s, items, groups, owners);
    r := Export(Manifest(DOCUMENT_EXPORT_FORMAT, c.env.packageVersion, ARCHIVE_NOTE_PROFILE_VERSION, documents), files);
  }

  method BuildOwners(c: Codec, s: Snapshot, ghost items: seq<BibliographyItem>, groups: OwnerMap, owners: seq<Identity>)
    returns (documents: seq<DocumentOwner>, files: seq<File>)
    requires GroupsBy(groups, LiveNotes(s), items) && forall o | o in owners :: o in groups
    ensures documents == Map(OwnerDocument(c.env, s, items), owners)
    ensures files == Flatten(Map(OwnerFiles(c.csl, s, items), owners))
  {
    documents, files := [], [];
    assert owners[..0] == [];
    for i := 0 to |owners|
      invariant BuiltUpTo(OwnerDocument(c.env, s, items), OwnerFiles(c.csl, s, items), owners, i, documents, files)
    {
      assert owners[i] in owners;
      assert Entry(groups, owners[i]) == BuilderOf(LiveNotes(s), items, owners[i]);
      var document, written := BuildOwner(c, s, items, owners[i], groups[owners[i]]);
      BuiltOneMore(OwnerDocument(c.env, s, items), OwnerFiles(c.csl, s, items), owners, i, documents, files, document,
                   written);
      documents, files := documents + [document], files + written;
    }
    BuiltAll(OwnerDocument(c.env, s, items), OwnerFiles(c.csl, s, items), owners, documents, files);
  }
}
