// Importing the documents of an export as they were written: the import succeeds and gives the live notes and
// the bibliography back (crates/marginalis-archive/src/documents.rs).
module UneditedDocuments {
  import opened Options
  import opened Domain
  import opened Unicode
  import opened Sequences
  import opened Sorting
  import opened Snapshots
  import opened Archives
  import opened ArchiveContents
  import opened Flattening
  import opened JsonValues
  import opened Bibliographies
  import opened DocumentPaths
  import opened DocumentExports
  import opened DocumentImports
  import opened DocumentRows
  import opened DocumentGrouping
  import opened DocumentRoundTrip
  import opened DocumentConservation
  import opened DocumentFiles
  import opened StateHash
  import HexCodec
  import Numerals

  // ---------------------------------------------------------------- the import

  lemma {:induction false} HexIsCanonical(bytes: seq<Byte>)
    requires |bytes| == 32
    ensures IsCanonicalSha256(HexCodec.Encode(bytes))
  {
    var text := HexCodec.Encode(bytes);
    forall i | 0 <= i < 64
      ensures '0' <= text[i] <= '9' || 'a' <= text[i] <= 'f'
    {
      HexCodec.EncodeAt(bytes, i / 2);
      HexDigitIsCanonical(bytes[i / 2] / 16);
      HexDigitIsCanonical(bytes[i / 2] % 16);
      assert i == 2 * (i / 2) || i == 2 * (i / 2) + 1;
    }
  }

  lemma {:induction false} HexDigitIsCanonical(d: nat)
    requires d < 16
    ensures '0' <= Numerals.HEX[d] <= '9' || 'a' <= Numerals.HEX[d] <= 'f'
  {
  }

  lemma {:induction false} AttachmentsImport(c: Codec, s: Snapshot, items: seq<BibliographyItem>, n: Note)
    requires LawfulCodec(c) && Exportable(c.env, s) && n in LiveNotes(s)
    ensures forall i | 0 <= i < |DocumentAttachments(s, n)| ::
              AttachmentImports(c.env, Collected(ExportOf(c, s, items).files), DocumentAttachments(s, n)[i])
  {
    var current := CurrentAttachments(s, n);
    CurrentBelong(s, n);
    forall i | 0 <= i < |DocumentAttachments(s, n)|
      ensures AttachmentImports(c.env, Collected(ExportOf(c, s, items).files), DocumentAttachments(s, n)[i])
    {
      var a := current[i];
      assert a in current;
      AttachmentFileIsFound(c, s, items, n, a);
      HexIsCanonical(a.sha256);
    }
  }

  lemma {:induction false} UneditedNoteImports(c: Codec, s: Snapshot, items: seq<BibliographyItem>, importedAt: I64,
                                               n: Note)
    requires LawfulCodec(c) && Exportable(c.env, s) && n in LiveNotes(s)
    ensures NoteImports(c, Collected(ExportOf(c, s, items).files), importedAt, n.owner.primary,
                        NoteDocument(c.env, s)(n))
  {
    var files, d := Collected(ExportOf(c, s, items).files), NoteDocument(c.env, s)(n);
    NoteFileIsFound(c, s, items, n);
    AttachmentsImport(c, s, items, n);
    HexIsCanonical(c.env.digest(Stream(StateOf(s, n))));
    assert c.decodeUtf8(Utf8(n.source)) == Some(n.source);
    assert DocumentState(n.owner.primary, d, files[d.file]) == StateOf(s, n);
    UnchangedNoteImports(c, files, importedAt, n.owner.primary, d);
  }

  lemma {:induction false} UnchangedNoteImports(c: Codec, files: Files, importedAt: I64, owner: Identity,
                                                d: DocumentNote)
    requires d.file in files && c.decodeUtf8(files[d.file]).Some? && IsCanonicalSha256(d.stateSha256)
    requires forall i | 0 <= i < |d.attachments| :: AttachmentImports(c.env, files, d.attachments[i])
    requires !StateChanged(c.env, owner, d, files[d.file])
    ensures NoteImports(c, files, importedAt, owner, d)
  {
  }

  // What every stored bibliography satisfies: items are valid, and no owner has a citation key twice.
  predicate ItemsExportable(csl: Csl, items: seq<BibliographyItem>) {
    && (forall i | 0 <= i < |items| :: ValidItem(csl, items[i]))
    && forall i, j | 0 <= i < j < |items| ::
         items[i].owner.primary != items[j].owner.primary || items[i].citationKey != items[j].citationKey
  }

  lemma {:induction false} RestExportable(csl: Csl, items: seq<BibliographyItem>)
    requires ItemsExportable(csl, items) && items != []
    ensures ItemsExportable(csl, items[1..])
    ensures forall item | item in items[1..] ::
              item.owner.primary != items[0].owner.primary || item.citationKey != items[0].citationKey
  {
  }

  lemma {:induction false} OwnedItemsAreUnique(csl: Csl, items: seq<BibliographyItem>, o: Identity)
    requires ItemsExportable(csl, items)
    ensures UniqueKeys(Filter(Owned(ItemOwner, o), items), CitationKey)
  {
    if items != [] {
      RestExportable(csl, items);
      OwnedItemsAreUnique(csl, items[1..], o);
      FilterMembers(Owned(ItemOwner, o), items[1..]);
      var rest := Filter(Owned(ItemOwner, o), items[1..]);
      if Owned(ItemOwner, o)(items[0]) {
        forall i | 0 <= i < |rest|
          ensures CitationKey(rest[i]) != CitationKey(items[0])
        {
          assert rest[i] in rest;
          assert Owned(ItemOwner, o)(rest[i]) && rest[i] in items[1..];
          assert ItemOwner(rest[i]) == o && ItemOwner(items[0]) == o;
          TextKeysIdentify(rest[i].citationKey, items[0].citationKey);
        }
      }
    }
  }

  // In the array of an owner every item is found under its citation key.
  lemma {:induction false} OwnItemIsFound(csl: Csl, items: seq<BibliographyItem>, o: Identity, k: nat)
    requires ItemsExportable(csl, items) && k < |ItemsOf(items, o)|
    ensures FindValue(Map(ValueOf(csl), ItemsOf(items, o)), ItemsOf(items, o)[k].citationKey)
            == Some(ValueOf(csl)(ItemsOf(items, o)[k]))
  {
    var own := ItemsOf(items, o);
    var values := Map(ValueOf(csl), own);
    OwnedItemsAreUnique(csl, items, o);
    UniqueKeysOfSort(Filter(Owned(ItemOwner, o), items), CitationKey);
    ItemsOfOwner(items, o);
    forall j | 0 <= j < |own|
      ensures IdOfValue(values[j]) == Some(own[j].citationKey)
    {
      assert own[j] in own;
      var i :| 0 <= i < |items| && items[i] == own[j];
    }
    forall j | 0 <= j < k
      ensures IdOfValue(values[j]) != IdOfValue(values[k])
    {
      assert CitationKey(own[j]) != CitationKey(own[k]);
      TextKeysIdentify(own[j].citationKey, own[k].citationKey);
    }
    FindsOwnValue(values, k);
  }

  lemma {:induction false} ArrayIsRead(c: Codec, s: Snapshot, items: seq<BibliographyItem>, o: Identity)
    requires LawfulCodec(c) && Exportable(c.env, s) && ItemsExportable(c.csl, items)
    requires DirectoriesDiffer(Owners(s, items)) && o in Owners(s, items)
    ensures var path := BibliographyPath(DirectoryOf(o));
            var files := Collected(ExportOf(c, s, items).files);
            path in files && c.csl.decodeArray(files[path]) == Some(Map(ValueOf(c.csl), ItemsOf(items, o)))
  {
    BibliographyFileIsFound(c, s, items, o);
    var own := ItemsOf(items, o);
    ItemsOfOwner(items, o);
    forall i | 0 <= i < |own|
      ensures c.csl.parse(own[i].cslJson).Some?
    {
      assert own[i] in own;
      var k :| 0 <= k < |items| && items[k] == own[i];
    }
  }

  lemma {:induction false} UneditedOwnerImports(c: Codec, s: Snapshot, items: seq<BibliographyItem>, importedAt: I64,
                                                o: Identity)
    requires LawfulCodec(c) && Exportable(c.env, s) && ItemsExportable(c.csl, items)
    requires DirectoriesDiffer(Owners(s, items)) && o in Owners(s, items)
    ensures OwnerImports(c, Collected(ExportOf(c, s, items).files), importedAt, OwnerDocument(c.env, s, items)(o))
  {
    var files := Collected(ExportOf(c, s, items).files);
    NotesOfOwner(s, o);
    var notes := NotesOf(s, o);
    forall k | 0 <= k < |notes|
      ensures NoteImports(c, files, importedAt, o, NoteDocument(c.env, s)(notes[k]))
    {
      assert notes[k] in notes;
      UneditedNoteImports(c, s, items, importedAt, notes[k]);
    }
    ArrayIsRead(c, s, items, o);
    forall k | 0 <= k < |ItemsOf(items, o)|
      ensures FindValue(Map(ValueOf(c.csl), ItemsOf(items, o)), ItemsOf(items, o)[k].citationKey).Some?
    {
      OwnItemIsFound(c.csl, items, o, k);
    }
    OwnerDocumentIs(c.env, s, items, o);
    PartsImport(c, files, importedAt, OwnerDocument(c.env, s, items)(o), NoteDocument(c.env, s), notes,
                ItemsOf(items, o),
                Map(ValueOf(c.csl), ItemsOf(items, o)));
  }

  lemma {:induction false} PartsImport(c: Codec, files: Files, importedAt: I64, owner: DocumentOwner,
                                       document: Note -> DocumentNote,
                                       notes: seq<Note>, own: seq<BibliographyItem>, values: seq<Json>)
    requires owner.notes == Map(document, notes) && owner.bibliography == Map(ItemDocument, own)
    requires forall k | 0 <= k < |notes| :: NoteImports(c, files, importedAt, IdentityOf(owner), document(notes[k]))
    requires owner.bibliographyFile in files && c.csl.decodeArray(files[owner.bibliographyFile]) == Some(values)
    requires forall k | 0 <= k < |own| :: FindValue(values, own[k].citationKey).Some?
    ensures OwnerImports(c, files, importedAt, owner)
  {
    forall i | 0 <= i < |owner.bibliography|
      ensures FindValue(values, owner.bibliography[i].citationKey).Some?
    {
      assert owner.bibliography[i] == ItemDocument(own[i]);
    }
  }

  lemma {:induction false} UneditedImports(c: Codec, s: Snapshot, items: seq<BibliographyItem>, packageVersion: string,
                                           importedAt: I64)
    requires LawfulCodec(c) && Exportable(c.env, s) && ItemsExportable(c.csl, items)
             && DirectoriesDiffer(Owners(s, items))
    ensures var e := ExportOf(c, s, items); ImportOf(c, e.manifest, Collected(e.files), packageVersion, importedAt).Ok?
  {
    var e := ExportOf(c, s, items);
    var files := Collected(e.files);
    forall i | 0 <= i < |e.manifest.owners|
      ensures OwnerImports(c, files, importedAt, e.manifest.owners[i])
    {
      assert Owners(s, items)[i] in Owners(s, items);
      UneditedOwnerImports(c, s, items, importedAt, Owners(s, items)[i]);
    }
    ImportSucceedsIff(c, e.manifest, files, packageVersion, importedAt);
  }

  // ---------------------------------------------------------------- what comes back

  function CurrentRevision(s: Snapshot): Note -> ArchiveRevision {
    (n: Note) => RevisionRow(map[n.noteId := CurrentIds(s, n)])(WriteNote(n))
  }

  function LiveItem(csl: Csl): BibliographyItem -> ArchiveItem {
    (item: BibliographyItem) => ItemWith(item, ValueOf(csl)(item))
  }

  // The live notes and the items as they are: one revision each, the current attachments and grants.
  function Live(c: Codec, s: Snapshot, items: seq<BibliographyItem>, packageVersion: string): Rebuilding {
    var rows := Rows(Map(WriteNote, LiveNotes(s)), Flatten(Map(LiveAcl(s), LiveNotes(s))),
                     Flatten(Map(LiveAttachments(c.env, s), LiveNotes(s))), map[], Map(LiveItem(c.csl), items));
    Rebuilding(
      Archive(ARCHIVE_FORMAT, packageVersion, ARCHIVE_NOTE_PROFILE_VERSION, Some(SinglePrincipals(rows)), rows.notes,
              Some(Map(CurrentRevision(s), LiveNotes(s))), Some(rows.attachments), rows.acl),
      rows.items)
  }

  // Every state fits in 64 bits.
  ghost predicate FitsMemory(s: Snapshot) {
    forall n | n in LiveNotes(s) :: AddressableState(StateOf(s, n))
  }

  lemma {:induction false} UneditedIsCollisionless(c: Codec, s: Snapshot, items: seq<BibliographyItem>)
    requires Exportable(c.env, s) && FitsMemory(s)
    ensures Collisionless(c.env, s, Collected(ExportOf(c, s, items).files))
    ensures forall n | n in LiveNotes(s) ::
            ContentsOf(Collected(ExportOf(c, s, items).files), PathOf(n)) == Utf8(n.source)
  {
    var files := Collected(ExportOf(c, s, items).files);
    forall n | n in LiveNotes(s)
      ensures ContentsOf(files, PathOf(n)) == Utf8(n.source) && EditedState(s, files, n) == StateOf(s, n)
    {
      NoteFileIsFound(c, s, items, n);
    }
    forall n, a | n in LiveNotes(s) && a in CurrentAttachments(s, n)
      ensures ContentsOf(files, AttachmentPath(DirectoryOf(n.owner.primary), a.attachmentId, a.fileName)) == a.bytes
    {
      AttachmentFileIsFound(c, s, items, n, a);
    }
  }

  lemma {:induction false} UneditedItem(c: Codec, s: Snapshot, items: seq<BibliographyItem>, item: BibliographyItem)
    requires LawfulCodec(c) && Exportable(c.env, s) && ItemsExportable(c.csl, items)
    requires DirectoriesDiffer(Owners(s, items)) && item in items
    ensures ItemIn(c, Collected(ExportOf(c, s, items).files))(item) == LiveItem(c.csl)(item)
  {
    var o, files := item.owner.primary, Collected(ExportOf(c, s, items).files);
    OwnersAreDistinct(s, items);
    assert ItemOwner(item) in Owners(s, items);
    ArrayIsRead(c, s, items, o);
    ItemsOfOwner(items, o);
    var k :| 0 <= k < |ItemsOf(items, o)| && ItemsOf(items, o)[k] == item;
    OwnItemIsFound(c.csl, items, o, k);
    assert ValuesIn(c, files, BibliographyPath(DirectoryOf(o))) == Map(ValueOf(c.csl), ItemsOf(items, o));
    ItemInIs(c, files, item);
  }

  lemma {:induction false} UneditedIsLive(c: Codec, s: Snapshot, items: seq<BibliographyItem>, files: Files,
                                          packageVersion: string,
                                          importedAt: I64)
    requires forall n | n in LiveNotes(s) :: ContentsOf(files, PathOf(n)) == Utf8(n.source)
    requires forall item | item in items :: ItemIn(c, files)(item) == LiveItem(c.csl)(item)
    ensures Rebuilt(c, s, items, files, packageVersion, importedAt) == Live(c, s, items, packageVersion)
  {
    var notes := LiveNotes(s);
    SameMap(LiveRow(c, files, importedAt), WriteNote, notes);
    SameMap(LiveRevision(c, s, files, importedAt), CurrentRevision(s), notes);
    SameMap(ItemIn(c, files), LiveItem(c.csl), items);
  }

  // An export that nobody edited is read back exactly when no two owners share a directory. Then the
  // import succeeds and gives the live notes and the items back as they were.
  lemma {:induction false} UneditedRoundTrip(c: Codec, s: Snapshot, items: seq<BibliographyItem>,
                                             packageVersion: string, importedAt: I64)
    requires LawfulCodec(c) && Exportable(c.env, s) && ItemsExportable(c.csl, items) && FitsMemory(s)
    ensures var e := ExportOf(c, s, items);
            var files := ReadBack(e.files);
            && (files.Some? <==> DirectoriesDiffer(Owners(s, items)))
            && (files.Some? ==>
                  var r := ImportOf(c, e.manifest, files.value, packageVersion, importedAt);
                  r.Ok? && SameRebuilding(Live(c, s, items, packageVersion), r.value))
  {
    ExportReadsBackIff(c, s, items);
    if DirectoriesDiffer(Owners(s, items)) {
      UneditedComesBack(c, s, items, packageVersion, importedAt);
    }
  }

  lemma {:induction false} UneditedComesBack(c: Codec, s: Snapshot, items: seq<BibliographyItem>,
                                             packageVersion: string, importedAt: I64)
    requires LawfulCodec(c) && Exportable(c.env, s) && ItemsExportable(c.csl, items) && FitsMemory(s)
    requires DirectoriesDiffer(Owners(s, items))
    ensures var e := ExportOf(c, s, items);
            var r := ImportOf(c, e.manifest, Collected(e.files), packageVersion, importedAt);
            r.Ok? && SameRebuilding(Live(c, s, items, packageVersion), r.value)
  {
    var files := Collected(ExportOf(c, s, items).files);
    UneditedImports(c, s, items, packageVersion, importedAt);
    UneditedIsCollisionless(c, s, items);
    ImportRebuilds(c, s, items, files, packageVersion, importedAt);
    forall item | item in items
      ensures ItemIn(c, files)(item) == LiveItem(c.csl)(item)
    {
      UneditedItem(c, s, items, item);
    }
    UneditedIsLive(c, s, items, files, packageVersion, importedAt);
  }

  // So a subject that is empty or not safe and the directory name made of it cannot both own documents.
  lemma {:induction false} UnsafeSubjectIsRefused(c: Codec, s: Snapshot, items: seq<BibliographyItem>, issuer: string,
                                                  subject: string)
    requires Exportable(c.env, s) && (subject == "" || !IsSafe(subject))
    requires Identity(issuer, subject) in Owners(s, items)
             && Identity(issuer, NamedOrUnnamed(subject)) in Owners(s, items)
    ensures ReadBack(ExportOf(c, s, items).files).None?
  {
    ExportReadsBackIff(c, s, items);
    UnsafeSubjectShares(issuer, subject);
    if DirectoriesDiffer(Owners(s, items)) {
      OwnerByDirectory(Owners(s, items), Identity(issuer, subject), Identity(issuer, NamedOrUnnamed(subject)));
    }
  }
}
