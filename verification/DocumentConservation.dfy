// What an export followed by an import conserves (crates/marginalis-archive/src/documents.rs).
module DocumentConservation {
  import opened Options
  import opened Domain
  import opened Unicode
  import opened Sequences
  import opened Sorting
  import opened Snapshots
  import opened Archives
  import opened ArchiveContents
  import opened Flattening
  import opened ArchiveMigration
  import opened JsonValues
  import opened Bibliographies
  import opened DocumentPaths
  import opened Identities
  import opened DocumentExports
  import opened DocumentImports
  import opened DocumentRows
  import opened DocumentGrouping
  import opened DocumentRoundTrip

  // ---------------------------------------------------------------- the order of notes does not matter

  lemma {:induction false} UniqueNotes(notes: seq<Note>)
    requires NotesOk(notes)
    ensures UniqueKeys(notes, NoteIdKey)
  {
    forall i, j | 0 <= i < j < |notes|
      ensures NoteIdKey(notes[i]) != NoteIdKey(notes[j])
    {
      assert NoteOk(notes, j);
      TextKeysIdentify(notes[i].noteId, notes[j].noteId);
    }
  }

  lemma {:induction false} LiveNotesAreUnique(s: Snapshot, items: seq<BibliographyItem>)
    requires NotesOk(s.notes)
    ensures UniqueKeys(LiveNotes(s), NoteIdKey) && UniqueKeys(Grouped(s, items), NoteIdKey)
    ensures Sort(Grouped(s, items), NoteIdKey) == Sort(LiveNotes(s), NoteIdKey)
  {
    UniqueNotes(s.notes);
    FilterKeepsUnique(IsLive, s.notes, NoteIdKey);
    GroupedIsLive(s, items);
    UniqueKeysPermute(LiveNotes(s), Grouped(s, items), NoteIdKey);
    UniqueKeysIdentify(Grouped(s, items), NoteIdKey);
    SortOfPermutation(Grouped(s, items), LiveNotes(s), NoteIdKey);
  }

  lemma {:induction false} MapOfGrouped<B>(s: Snapshot, items: seq<BibliographyItem>, f: Note -> B)
    ensures multiset(Map(f, Grouped(s, items))) == multiset(Map(f, LiveNotes(s)))
  {
    GroupedIsLive(s, items);
    MapOfPermutation(f, Grouped(s, items), LiveNotes(s));
  }

  lemma {:induction false} FlattenOfGrouped<B>(s: Snapshot, items: seq<BibliographyItem>, f: Note -> seq<B>)
    requires NotesOk(s.notes)
    ensures multiset(Flatten(Map(f, Grouped(s, items)))) == multiset(Flatten(Map(f, LiveNotes(s))))
  {
    LiveNotesAreUnique(s, items);
    FlattenOfSorted(f, Grouped(s, items), NoteIdKey);
    FlattenOfSorted(f, LiveNotes(s), NoteIdKey);
  }

  lemma {:induction false} SinglesOfPermutation(a: Rows, b: Rows)
    requires multiset(a.notes) == multiset(b.notes) && multiset(a.acl) == multiset(b.acl)
    requires multiset(a.attachments) == multiset(b.attachments) && multiset(a.items) == multiset(b.items)
    ensures SinglePrincipals(a) == SinglePrincipals(b)
  {
    PermutationMembers(a.notes, b.notes);
    PermutationMembers(a.acl, b.acl);
    PermutationMembers(a.attachments, b.attachments);
    PermutationMembers(a.items, b.items);
    forall i
      ensures i in UsedIdentities(a) <==> i in UsedIdentities(b)
    {
      UsedAreNamed(a, i);
      UsedAreNamed(b, i);
    }
    OnceDependsOnMembers(UsedIdentities(a), UsedIdentities(b));
  }

  // ---------------------------------------------------------------- revisions

  lemma {:induction false} GroupedRevisions(c: Codec, s: Snapshot, items: seq<BibliographyItem>, files: Files,
                                            importedAt: I64)
    requires Exportable(c.env, s)
    ensures var ids := AddIds(map[], Map(NoteDocument(c.env, s), Grouped(s, items)));
            Map(RevisionRow(ids), Map(LiveRow(c, files, importedAt), Grouped(s, items)))
                == Map(LiveRevision(c, s, files, importedAt), Grouped(s, items))
  {
    var ids := AddIds(map[], Map(NoteDocument(c.env, s), Grouped(s, items)));
    forall n | n in Grouped(s, items)
      ensures RevisionRow(ids)(LiveRow(c, files, importedAt)(n)) == LiveRevision(c, s, files, importedAt)(n)
    {
      GroupedIds(c, s, items, n);
      RowKeepsId(c, files, importedAt, n);
      SameIdsSameRevision(ids, map[n.noteId := CurrentIds(s, n)], LiveRow(c, files, importedAt)(n));
    }
    MapComposed(LiveRow(c, files, importedAt), RevisionRow(ids), LiveRevision(c, s, files, importedAt),
                Grouped(s, items));
  }

  lemma {:induction false} RowKeepsId(c: Codec, files: Files, importedAt: I64, n: Note)
    ensures LiveRow(c, files, importedAt)(n).noteId == n.noteId
  {
  }

  lemma {:induction false} SameIdsSameRevision(ids: map<string, seq<string>>, own: map<string, seq<string>>,
                                               row: ArchiveNote)
    requires row.noteId in ids && row.noteId in own && ids[row.noteId] == own[row.noteId]
    ensures RevisionRow(ids)(row) == RevisionRow(own)(row)
  {
  }

  lemma {:induction false} GroupedIds(c: Codec, s: Snapshot, items: seq<BibliographyItem>, n: Note)
    requires Exportable(c.env, s) && n in Grouped(s, items)
    ensures var ids := AddIds(map[], Map(NoteDocument(c.env, s), Grouped(s, items)));
            n.noteId in ids && ids[n.noteId] == CurrentIds(s, n)
  {
    var grouped := Grouped(s, items);
    var documents := Map(NoteDocument(c.env, s), grouped);
    LiveNotesAreUnique(s, items);
    forall i, j | 0 <= i < j < |documents|
      ensures documents[i].noteId != documents[j].noteId
    {
      assert NoteIdKey(grouped[i]) != NoteIdKey(grouped[j]);
    }
    var k :| 0 <= k < |grouped| && grouped[k] == n;
    AddIdsFinds(map[], documents, k);
    CurrentBelong(s, n);
  }

  lemma {:induction false} RevisionBagsAgree(c: Codec, s: Snapshot, items: seq<BibliographyItem>, files: Files,
                                             importedAt: I64)
    requires Exportable(c.env, s)
    ensures var ids := AddIds(map[], Map(NoteDocument(c.env, s), Grouped(s, items)));
            multiset(Map(BagOfRevision, Map(RevisionRow(ids), Map(LiveRow(c, files, importedAt), Grouped(s, items)))))
            == multiset(Map(BagOfRevision, Map(LiveRevision(c, s, files, importedAt), LiveNotes(s))))
  {
    var live := LiveRevision(c, s, files, importedAt);
    var bag := (n: Note) => BagOfRevision(live(n));
    GroupedRevisions(c, s, items, files, importedAt);
    MapComposed(live, BagOfRevision, bag, Grouped(s, items));
    MapComposed(live, BagOfRevision, bag, LiveNotes(s));
    MapOfGrouped(s, items, bag);
  }

  // ---------------------------------------------------------------- what is rebuilt

  // The rows that an import collects.
  function CollectedRows(c: Codec, s: Snapshot, items: seq<BibliographyItem>, files: Files, importedAt: I64): Rows {
    Plus(NO_ROWS, LiveRow(c, files, importedAt), LiveAttachments(c.env, s), LiveAcl(s), NoteDocument(c.env, s),
         Grouped(s, items))
      .(items := ItemsIn(c, files, items, Owners(s, items)))
  }

  ghost predicate SameRows(a: Rows, b: Rows) {
    && multiset(a.notes) == multiset(b.notes) && multiset(a.acl) == multiset(b.acl)
    && multiset(a.attachments) == multiset(b.attachments) && multiset(a.items) == multiset(b.items)
  }

  lemma {:induction false} CollectedAreLive(c: Codec, s: Snapshot, items: seq<BibliographyItem>, files: Files,
                                            importedAt: I64)
    requires Exportable(c.env, s)
    ensures SameRows(LiveRows(c, s, items, files, importedAt), CollectedRows(c, s, items, files, importedAt))
    ensures CollectedRows(c, s, items, files, importedAt).notes == Map(LiveRow(c, files, importedAt), Grouped(s, items))
    ensures CollectedRows(c, s, items, files, importedAt).ids
            == AddIds(map[], Map(NoteDocument(c.env, s), Grouped(s, items)))
  {
    var row, attachments, acl := LiveRow(c, files, importedAt), LiveAttachments(c.env, s), LiveAcl(s);
    PlusIsMap(row, attachments, acl, NoteDocument(c.env, s), Grouped(s, items));
    MapOfGrouped(s, items, row);
    FlattenOfGrouped(s, items, attachments);
    FlattenOfGrouped(s, items, acl);
    GroupedItemsAreItems(s, items);
    MapOfPermutation(ItemIn(c, files), GroupedItems(s, items), items);
  }

  // Two archives with the same rows, and with revisions that agree as bags.
  lemma {:induction false} SameRowsSameContent(a: Rows, b: Rows, revisions: seq<ArchiveRevision>,
                                               packageVersion: string)
    requires SameRows(a, b)
    requires multiset(Map(BagOfRevision, Map(RevisionRow(b.ids), b.notes))) == multiset(Map(BagOfRevision, revisions))
    ensures SameContent(
              Archive(ARCHIVE_FORMAT, packageVersion, ARCHIVE_NOTE_PROFILE_VERSION, Some(SinglePrincipals(a)), a.notes,
                      Some(revisions), Some(a.attachments), a.acl),
              ArchiveOfRows(b, packageVersion))
  {
    SinglesOfPermutation(a, b);
  }

  lemma {:induction false} GroupedIsRebuilt(c: Codec, s: Snapshot, items: seq<BibliographyItem>, files: Files,
                                            packageVersion: string, importedAt: I64)
    requires Exportable(c.env, s)
    ensures var rows := CollectedRows(c, s, items, files, importedAt);
            SameRebuilding(Rebuilt(c, s, items, files, packageVersion, importedAt),
                           Rebuilding(ArchiveOfRows(rows, packageVersion), rows.items))
  {
    CollectedAreLive(c, s, items, files, importedAt);
    RevisionBagsAgree(c, s, items, files, importedAt);
    SameRowsSameContent(LiveRows(c, s, items, files, importedAt), CollectedRows(c, s, items, files, importedAt),
                        Map(LiveRevision(c, s, files, importedAt), LiveNotes(s)), packageVersion);
  }

  lemma {:induction false} PlusIsMap(row: Note -> ArchiveNote, attachments: Note -> seq<ArchiveAttachment>,
                                     acl: Note -> seq<ArchiveAcl>,
                                     document: Note -> DocumentNote, notes: seq<Note>)
    ensures Plus(NO_ROWS, row, attachments, acl, document, notes)
            == Rows(Map(row, notes), Flatten(Map(acl, notes)), Flatten(Map(attachments, notes)),
                    AddIds(map[], Map(document, notes)), [])
  {
    assert NO_ROWS.notes + Map(row, notes) == Map(row, notes);
    assert NO_ROWS.acl + Flatten(Map(acl, notes)) == Flatten(Map(acl, notes));
    assert NO_ROWS.attachments + Flatten(Map(attachments, notes)) == Flatten(Map(attachments, notes));
  }

  lemma {:induction false} CanonicalRebuilding(rows: Rows, packageVersion: string)
    ensures SameRebuilding(Rebuilding(ArchiveOfRows(rows, packageVersion), rows.items),
                           RebuildingOf(rows, packageVersion))
  {
    CanonicalKeepsContent(ArchiveOfRows(rows, packageVersion));
    SortPermutes(rows.items, ItemIdKey);
  }

  // Whatever was done to the files, an import that succeeds rebuilds every live note once, unedited notes
  // as they were exported and edited ones as their next revision, with their access lists and
  // attachments, and every item with the data that the bibliography file of its owner has for it.
  lemma {:induction false} ImportRebuilds(c: Codec, s: Snapshot, items: seq<BibliographyItem>, files: Files,
                                          packageVersion: string, importedAt: I64)
    requires LawfulCodec(c) && Exportable(c.env, s) && Collisionless(c.env, s, files)
    requires ImportOf(c, ExportOf(c, s, items).manifest, files, packageVersion, importedAt).Ok?
    ensures SameRebuilding(Rebuilt(c, s, items, files, packageVersion, importedAt),
                           ImportOf(c, ExportOf(c, s, items).manifest, files, packageVersion, importedAt).value)
  {
    ImportedRows(c, s, items, files, packageVersion, importedAt);
    GroupedIsRebuilt(c, s, items, files, packageVersion, importedAt);
    CanonicalRebuilding(CollectedRows(c, s, items, files, importedAt), packageVersion);
  }

  // ---------------------------------------------------------------- edited and unedited notes

  // An unedited note keeps its revision, its times and its review.
  lemma {:induction false} UneditedNoteIsKept(c: Codec, s: Snapshot, items: seq<BibliographyItem>, files: Files,
                                              packageVersion: string, importedAt: I64, n: Note)
    requires LawfulCodec(c) && Exportable(c.env, s) && Collisionless(c.env, s, files)
    requires ImportOf(c, ExportOf(c, s, items).manifest, files, packageVersion, importedAt).Ok?
    requires n in LiveNotes(s) && IsUnedited(files, n)
    ensures WriteNote(n)
            in ImportOf(c, ExportOf(c, s, items).manifest, files, packageVersion, importedAt).value.archive.notes
  {
    RowIsImported(c, s, items, files, packageVersion, importedAt, n);
  }

  lemma {:induction false} RowIsImported(c: Codec, s: Snapshot, items: seq<BibliographyItem>, files: Files,
                                         packageVersion: string, importedAt: I64, n: Note)
    requires LawfulCodec(c) && Exportable(c.env, s) && Collisionless(c.env, s, files)
    requires ImportOf(c, ExportOf(c, s, items).manifest, files, packageVersion, importedAt).Ok? && n in LiveNotes(s)
    ensures LiveRow(c, files, importedAt)(n)
            in ImportOf(c, ExportOf(c, s, items).manifest, files, packageVersion, importedAt).value.archive.notes
  {
    ImportRebuilds(c, s, items, files, packageVersion, importedAt);
    MappedIsThere(LiveRow(c, files, importedAt), LiveNotes(s), n,
                  ImportOf(c, ExportOf(c, s, items).manifest, files, packageVersion, importedAt).value.archive.notes);
  }

  // The next revision of a note: one more, strictly later and not before the import, with tracked
  // reviews that do not cover it.
  predicate IsNextRevision(row: ArchiveNote, n: Note, importedAt: I64) {
    && row.noteId == n.noteId && row.creator == n.owner.primary && row.createdAt == n.createdAt && row.deletedAt.None?
    && row.revision == n.revision + 1 && row.updatedAt > n.updatedAt && row.updatedAt >= importedAt
    && row.provenance.Some? && row.provenance.value.createdVia == n.createdVia
        && row.provenance.value.review.trackingKnown
    && (row.provenance.value.review.revision.Some? ==> row.provenance.value.review.revision.value < row.revision)
  }

  lemma {:induction false} EditedNoteAdvances(c: Codec, s: Snapshot, items: seq<BibliographyItem>, files: Files,
                                              packageVersion: string, importedAt: I64, n: Note)
    requires LawfulCodec(c) && Exportable(c.env, s) && Collisionless(c.env, s, files)
    requires ImportOf(c, ExportOf(c, s, items).manifest, files, packageVersion, importedAt).Ok?
    requires n in LiveNotes(s) && !IsUnedited(files, n)
    ensures var row := LiveRow(c, files, importedAt)(n);
            && row in ImportOf(c, ExportOf(c, s, items).manifest, files, packageVersion, importedAt).value.archive.notes
            && IsNextRevision(row, n, importedAt) && row.source == TextOf(c, ContentsOf(files, PathOf(n)))
  {
    RowIsImported(c, s, items, files, packageVersion, importedAt, n);
    NoOverflow(c, s, items, files, packageVersion, importedAt, n);
    LiveNotesAreNotes(s);
    NextIsNext(c, n, ContentsOf(files, PathOf(n)), importedAt);
  }

  lemma {:induction false} NextIsNext(c: Codec, n: Note, contents: seq<Byte>, importedAt: I64)
    requires contents != Utf8(n.source) && IsI64(n.updatedAt + 1) && IsI64(n.revision + 1) && ValidNote(n)
             && n.deletedAt.None?
    ensures var row := NextRow(c, n, contents, importedAt);
            IsNextRevision(row, n, importedAt) && row.source == TextOf(c, contents)
  {
  }

  // A changed note whose counters would overflow stops the import.
  lemma {:induction false} NoOverflow(c: Codec, s: Snapshot, items: seq<BibliographyItem>, files: Files,
                                      packageVersion: string, importedAt: I64, n: Note)
    requires Collisionless(c.env, s, files) && n in LiveNotes(s) && !IsUnedited(files, n)
    requires ImportOf(c, ExportOf(c, s, items).manifest, files, packageVersion, importedAt).Ok?
    ensures IsI64(n.updatedAt + 1) && IsI64(n.revision + 1)
  {
    LiveNoteImports(c, s, items, files, packageVersion, importedAt, n);
    ChangedIffEdited(c, s, files, n);
    var owner, d := n.owner.primary, NoteDocument(c.env, s)(n);
    ImportedRow(c, files, importedAt, owner, d);
    CountersFit(owner, d, TextOf(c, ContentsOf(files, d.file)), importedAt);
  }

  lemma {:induction false} CountersFit(owner: Identity, d: DocumentNote, source: string, importedAt: I64)
    requires NoteRow(owner, d, source, true, importedAt).Some?
    ensures IsI64(d.updatedAt + 1) && IsI64(d.revision + 1)
  {
  }

  // However the archive is read, a review of an earlier revision leaves the next one pending.
  lemma {:induction false} NextRevisionIsPending(env: Environment, principals: seq<Principal>, row: ArchiveNote,
                                                 n: Note, importedAt: I64)
    requires IsNextRevision(row, n, importedAt) && ReadNote(env, principals, row).Some?
    ensures var m := ReadNote(env, principals, row).value;
            ReviewStatusOf(m.review, m.revision) == Pending
  {
  }

  // ---------------------------------------------------------------- items

  // The row of an item whose data are these.
  function ItemWith(item: BibliographyItem, value: Json): ArchiveItem {
    ArchiveItem(item.itemId, item.owner.primary, item.citationKey, value, item.createdAt, item.updatedAt, item.revision)
  }

  // An item comes back once with its own times and revision, and with the first entry of the bibliography
  // file of its owner that has its citation key.
  lemma {:induction false} ItemIsKept(c: Codec, s: Snapshot, items: seq<BibliographyItem>, files: Files,
                                      packageVersion: string, importedAt: I64, item: BibliographyItem)
    requires LawfulCodec(c) && Exportable(c.env, s) && Collisionless(c.env, s, files) && item in items
    requires ImportOf(c, ExportOf(c, s, items).manifest, files, packageVersion, importedAt).Ok?
    ensures var r := ImportOf(c, ExportOf(c, s, items).manifest, files, packageVersion, importedAt).value;
            var found := FindValue(ValuesIn(c, files, BibliographyPath(DirectoryOf(item.owner.primary))),
                                   item.citationKey);
            found.Some? && ItemWith(item, found.value) in r.items
  {
    ItemIsFound(c, s, items, files, packageVersion, importedAt, item);
    ItemIsImported(c, s, items, files, packageVersion, importedAt, item);
    ItemInIs(c, files, item);
  }

  lemma {:induction false} ItemInIs(c: Codec, files: Files, item: BibliographyItem)
    ensures var found :=
            FindValue(ValuesIn(c, files, BibliographyPath(DirectoryOf(item.owner.primary))), item.citationKey);
            found.Some? ==> ItemIn(c, files)(item) == ItemWith(item, found.value)
  {
    var values := ValuesIn(c, files, BibliographyPath(DirectoryOf(item.owner.primary)));
    assert ItemIn(c, files)(item) == ItemRowOf(item.owner.primary, values)(ItemDocument(item));
  }

  lemma {:induction false} ItemIsImported(c: Codec, s: Snapshot, items: seq<BibliographyItem>, files: Files,
                                          packageVersion: string, importedAt: I64, item: BibliographyItem)
    requires LawfulCodec(c) && Exportable(c.env, s) && Collisionless(c.env, s, files) && item in items
    requires ImportOf(c, ExportOf(c, s, items).manifest, files, packageVersion, importedAt).Ok?
    ensures ItemIn(c, files)(item)
            in ImportOf(c, ExportOf(c, s, items).manifest, files, packageVersion, importedAt).value.items
  {
    ImportRebuilds(c, s, items, files, packageVersion, importedAt);
    MappedIsThere(ItemIn(c, files), items, item,
                  ImportOf(c, ExportOf(c, s, items).manifest, files, packageVersion, importedAt).value.items);
  }

  lemma {:induction false} ItemIsFound(c: Codec, s: Snapshot, items: seq<BibliographyItem>, files: Files,
                                       packageVersion: string, importedAt: I64, item: BibliographyItem)
    requires ImportOf(c, ExportOf(c, s, items).manifest, files, packageVersion, importedAt).Ok? && item in items
    ensures FindValue(ValuesIn(c, files, BibliographyPath(DirectoryOf(item.owner.primary))), item.citationKey).Some?
  {
    var o := item.owner.primary;
    OwnersAreDistinct(s, items);
    assert ItemOwner(item) in Owners(s, items);
    ExportedOwnerImports(c, s, items, files, packageVersion, importedAt, o);
    OwnerDocumentIs(c.env, s, items, o);
    ItemsOfOwner(items, o);
    ListedItemIsFound(c, files, OwnerDocument(c.env, s, items)(o), ItemsOf(items, o), item);
  }

  lemma {:induction false} ListedItemIsFound(c: Codec, files: Files, owner: DocumentOwner, own: seq<BibliographyItem>,
                                             item: BibliographyItem)
    requires BibliographyImports(c, files, owner) && owner.bibliography == Map(ItemDocument, own) && item in own
    ensures FindValue(ValuesIn(c, files, owner.bibliographyFile), item.citationKey).Some?
  {
    var k :| 0 <= k < |own| && own[k] == item;
    assert owner.bibliography[k] == ItemDocument(item);
  }
}
