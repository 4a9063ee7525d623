// Grouping by owner loses and repeats no live note, and importing an exported manifest visits the notes
// of the groups one after the other (crates/marginalis-archive/src/documents.rs).
module DocumentGrouping {
  import opened Domain
  import opened Sequences
  import opened Sorting
  import opened Snapshots
  import opened Archives
  import opened ArchiveContents
  import opened Flattening
  import opened Bibliographies
  import opened DocumentPaths
  import opened Identities
  import opened DocumentExports
  import opened DocumentImports
  import opened DocumentRows

  function NotesFor(s: Snapshot): Identity -> seq<Note> {
    (o: Identity) => NotesOf(s, o)
  }

  function ItemsFor(items: seq<BibliographyItem>): Identity -> seq<BibliographyItem> {
    (o: Identity) => ItemsOf(items, o)
  }

  // The live notes in the order in which an import meets them.
  function Grouped(s: Snapshot, items: seq<BibliographyItem>): seq<Note> {
    Flatten(Map(NotesFor(s), Owners(s, items)))
  }

  function GroupedItems(s: Snapshot, items: seq<BibliographyItem>): seq<BibliographyItem> {
    Flatten(Map(ItemsFor(items), Owners(s, items)))
  }

  // ---------------------------------------------------------------- groups make up the whole

  function Outside<T>(ownerOf: T -> Identity, owner: Identity): T -> bool {
    (x: T) => ownerOf(x) != owner
  }

  lemma {:induction false} FilterPartitions<T>(ownerOf: T -> Identity, s: seq<T>, owner: Identity)
    ensures multiset(s) == multiset(Filter(Owned(ownerOf, owner), s)) + multiset(Filter(Outside(ownerOf, owner), s))
  {
    if s != [] {
      FilterPartitions(ownerOf, s[1..], owner);
      assert s == [s[0]] + s[1..];
    }
  }

  lemma {:induction false} FilterOutside<T>(ownerOf: T -> Identity, s: seq<T>, owner: Identity, other: Identity)
    requires owner != other
    ensures Filter(Owned(ownerOf, owner), Filter(Outside(ownerOf, other), s)) == Filter(Owned(ownerOf, owner), s)
  {
    if s != [] {
      FilterOutside(ownerOf, s[1..], owner, other);
      if ownerOf(s[0]) != other {
        FilterCons(Owned(ownerOf, owner), s[0], Filter(Outside(ownerOf, other), s[1..]));
      }
    }
  }

  function SortedGroup<T>(ownerOf: T -> Identity, key: T -> Key, s: seq<T>): Identity -> seq<T> {
    (o: Identity) => Sort(Filter(Owned(ownerOf, o), s), key)
  }

  // The groups of the other owners are those of the elements outside.
  lemma {:induction false} GroupsOutside<T>(ownerOf: T -> Identity, key: T -> Key, s: seq<T>, owner: Identity,
                                            others: seq<Identity>)
    requires owner !in others
    ensures Map(SortedGroup(ownerOf, key, Filter(Outside(ownerOf, owner), s)), others)
            == Map(SortedGroup(ownerOf, key, s), others)
  {
    var rest := Filter(Outside(ownerOf, owner), s);
    forall i | 0 <= i < |others|
      ensures SortedGroup(ownerOf, key, rest)(others[i]) == SortedGroup(ownerOf, key, s)(others[i])
    {
      assert others[i] in others;
      FilterOutside(ownerOf, s, others[i], owner);
    }
  }

  lemma {:induction false} GroupsMakeUpAll<T>(ownerOf: T -> Identity, key: T -> Key, s: seq<T>, owners: seq<Identity>)
    requires DistinctIdentities(owners) && forall x | x in s :: ownerOf(x) in owners
    ensures multiset(Flatten(Map(SortedGroup(ownerOf, key, s), owners))) == multiset(s)
    decreases |owners|
  {
    assert forall i | 0 <= i < |s| :: s[i] in s;
    if owners != [] {
      var o, others := owners[0], owners[1..];
      var rest := Filter(Outside(ownerOf, o), s);
      assert owners == [o] + others;
      assert o !in others;
      FilterMembers(Outside(ownerOf, o), s);
      GroupsMakeUpAll(ownerOf, key, rest, others);
      GroupsOutside(ownerOf, key, s, o, others);
      GroupsOfFirst(SortedGroup(ownerOf, key, s), o, others);
      FilterPartitions(ownerOf, s, o);
      SortPermutes(Filter(Owned(ownerOf, o), s), key);
    }
  }

  lemma {:induction false} GroupsOfFirst<T>(group: Identity -> seq<T>, o: Identity, others: seq<Identity>)
    ensures Flatten(Map(group, [o] + others)) == group(o) + Flatten(Map(group, others))
  {
    assert Map(group, [o] + others) == [group(o)] + Map(group, others);
    assert ([group(o)] + Map(group, others))[1..] == Map(group, others);
  }

  lemma {:induction false} OwnersAreDistinct(s: Snapshot, items: seq<BibliographyItem>)
    ensures DistinctIdentities(Owners(s, items))
    ensures forall n | n in LiveNotes(s) :: OwnerOf(n) in Owners(s, items)
    ensures forall item | item in items :: ItemOwner(item) in Owners(s, items)
  {
    OnceIsDistinct(OwnersNamed(s, items));
    OnceOf(OwnersNamed(s, items));
    forall n | n in LiveNotes(s)
      ensures OwnerOf(n) in Map(OwnerOf, LiveNotes(s))
    {
      var i :| 0 <= i < |LiveNotes(s)| && LiveNotes(s)[i] == n;
      assert Map(OwnerOf, LiveNotes(s))[i] == OwnerOf(n);
    }
    forall item | item in items
      ensures ItemOwner(item) in Map(ItemOwner, items)
    {
      var i :| 0 <= i < |items| && items[i] == item;
      assert Map(ItemOwner, items)[i] == ItemOwner(item);
    }
  }

  // Grouping by owner loses and repeats no live note.
  lemma {:induction false} GroupedIsLive(s: Snapshot, items: seq<BibliographyItem>)
    ensures multiset(Grouped(s, items)) == multiset(LiveNotes(s))
  {
    OwnersAreDistinct(s, items);
    GroupsMakeUpAll(OwnerOf, NoteIdKey, LiveNotes(s), Owners(s, items));
    assert Map(NotesFor(s), Owners(s, items)) == Map(SortedGroup(OwnerOf, NoteIdKey, LiveNotes(s)), Owners(s, items));
  }

  // Nor an item.
  lemma {:induction false} GroupedItemsAreItems(s: Snapshot, items: seq<BibliographyItem>)
    ensures multiset(GroupedItems(s, items)) == multiset(items)
  {
    OwnersAreDistinct(s, items);
    GroupsMakeUpAll(ItemOwner, CitationKey, items, Owners(s, items));
    assert Map(ItemsFor(items), Owners(s, items)) == Map(SortedGroup(ItemOwner, CitationKey, items), Owners(s, items));
  }

  // ---------------------------------------------------------------- an exported manifest

  function OwnerDocuments(env: Environment, s: Snapshot, items: seq<BibliographyItem>,
                          owners: seq<Identity>): seq<DocumentOwner> {
    Map(OwnerDocument(env, s, items), owners)
  }

  function GroupsOf(s: Snapshot, owners: seq<Identity>): seq<Note> {
    Flatten(Map(NotesFor(s), owners))
  }

  lemma {:induction false} GroupsGrow(s: Snapshot, owners: seq<Identity>, k: nat)
    requires k < |owners|
    ensures GroupsOf(s, owners[..k + 1]) == GroupsOf(s, owners[..k]) + NotesOf(s, owners[k])
  {
    FlattenMapGrows(NotesFor(s), owners, k);
  }

  lemma {:induction false} AddIdsSplits(ids: map<string, seq<string>>, a: seq<DocumentNote>, b: seq<DocumentNote>)
    ensures AddIds(ids, a + b) == AddIds(AddIds(ids, a), b)
  {
    if b == [] {
      assert a + b == a;
    } else {
      assert (a + b)[..|a + b| - 1] == a + b[..|b| - 1];
      AddIdsSplits(ids, a, b[..|b| - 1]);
    }
  }

  // Each note's list of attachments is found under its ID when no two notes share one.
  lemma {:induction false} AddIdsFinds(ids: map<string, seq<string>>, notes: seq<DocumentNote>, k: nat)
    requires k < |notes| && forall i, j | 0 <= i < j < |notes| :: notes[i].noteId != notes[j].noteId
    ensures notes[k].noteId in AddIds(ids, notes)
    ensures AddIds(ids, notes)[notes[k].noteId] == Map(IdOf, notes[k].attachments)
  {
    var last := |notes| - 1;
    if k < last {
      AddIdsFinds(ids, notes[..last], k);
    }
  }

  // The rows for live notes, when each document note gives the row `row` says.
  ghost predicate RowsAre(c: Codec, s: Snapshot, files: Files, importedAt: I64, row: Note -> ArchiveNote,
                          attachments: Note -> seq<ArchiveAttachment>, acl: Note -> seq<ArchiveAcl>, n: Note)
  {
    var d := NoteDocument(c.env, s)(n);
    && RowOf(c, files, importedAt, n.owner.primary)(d) == row(n)
    && AclRowsOf(d) == acl(n)
    && AttachmentRowsOf(c.env, files)(d) == attachments(n)
  }

  // The rows with those of more notes.
  function Plus(start: Rows, row: Note -> ArchiveNote, attachments: Note -> seq<ArchiveAttachment>,
                acl: Note -> seq<ArchiveAcl>,
                document: Note -> DocumentNote, notes: seq<Note>): Rows
  {
    start.(notes := start.notes + Map(row, notes), acl := start.acl + Flatten(Map(acl, notes)),
           attachments := start.attachments + Flatten(Map(attachments, notes)),
           ids := AddIds(start.ids, Map(document, notes)))
  }

  lemma {:induction false} PlusSplits(start: Rows, row: Note -> ArchiveNote,
                                      attachments: Note -> seq<ArchiveAttachment>,
                                      acl: Note -> seq<ArchiveAcl>, document: Note -> DocumentNote, a: seq<Note>,
                                      b: seq<Note>)
    ensures Plus(Plus(start, row, attachments, acl, document, a), row, attachments, acl, document, b)
            == Plus(start, row, attachments, acl, document, a + b)
  {
    MapSplits(row, a, b);
    Assoc3(start.notes, Map(row, a), Map(row, b));
    FlattenMapSplits(acl, a, b);
    Assoc3(start.acl, Flatten(Map(acl, a)), Flatten(Map(acl, b)));
    FlattenMapSplits(attachments, a, b);
    Assoc3(start.attachments, Flatten(Map(attachments, a)), Flatten(Map(attachments, b)));
    MapSplits(document, a, b);
    AddIdsSplits(start.ids, Map(document, a), Map(document, b));
  }

  lemma {:induction false} OwnerRowsAre(c: Codec, s: Snapshot, files: Files, importedAt: I64, row: Note -> ArchiveNote,
                                        attachments: Note -> seq<ArchiveAttachment>, acl: Note -> seq<ArchiveAcl>,
                                        o: Identity, start: Rows)
    requires forall n | n in NotesOf(s, o) ::
                n.owner.primary == o && RowsAre(c, s, files, importedAt, row, attachments, acl, n)
    ensures AddNotes(c, files, importedAt, o, start, Map(NoteDocument(c.env, s), NotesOf(s, o)))
            == Plus(start, row, attachments, acl, NoteDocument(c.env, s), NotesOf(s, o))
  {
    OwnerRows(c, files, importedAt, o, start, row, attachments, acl, NoteDocument(c.env, s), NotesOf(s, o));
  }

  lemma {:induction false} OwnerRows(c: Codec, files: Files, importedAt: I64, o: Identity, start: Rows,
                                     row: Note -> ArchiveNote,
                                     attachments: Note -> seq<ArchiveAttachment>, acl: Note -> seq<ArchiveAcl>,
                                     document: Note -> DocumentNote, notes: seq<Note>)
    requires forall n | n in notes ::
               && RowOf(c, files, importedAt, o)(document(n)) == row(n)
               && AclRowsOf(document(n)) == acl(n)
               && AttachmentRowsOf(c.env, files)(document(n)) == attachments(n)
    ensures AddNotes(c, files, importedAt, o, start, Map(document, notes))
            == Plus(start, row, attachments, acl, document, notes)
  {
    MapComposed(document, RowOf(c, files, importedAt, o), row, notes);
    MapComposed(document, AclRowsOf, acl, notes);
    MapComposed(document, AttachmentRowsOf(c.env, files), attachments, notes);
  }

  lemma {:induction false} NotesOfOwner(s: Snapshot, o: Identity)
    ensures forall n :: n in NotesOf(s, o) <==> n in LiveNotes(s) && n.owner.primary == o
  {
    SortMembers(Filter(Owned(OwnerOf, o), LiveNotes(s)), NoteIdKey);
    FilterMembers(Owned(OwnerOf, o), LiveNotes(s));
    assert forall n :: Owned(OwnerOf, o)(n) <==> OwnerOf(n) == o;
  }

  lemma {:induction false} ItemsOfOwner(items: seq<BibliographyItem>, o: Identity)
    ensures forall item :: item in ItemsOf(items, o) <==> item in items && item.owner.primary == o
  {
    SortMembers(Filter(Owned(ItemOwner, o), items), CitationKey);
    FilterMembers(Owned(ItemOwner, o), items);
    assert forall item :: Owned(ItemOwner, o)(item) <==> ItemOwner(item) == o;
  }

  // The row of an item, with the data that the bibliography file of its owner has for it.
  function ItemIn(c: Codec, files: Files): BibliographyItem -> ArchiveItem {
    (item: BibliographyItem) =>
      ItemRowOf(item.owner.primary,
                ValuesIn(c, files, BibliographyPath(DirectoryOf(item.owner.primary))))(ItemDocument(item))
  }

  lemma {:induction false} OwnerItemsAre(c: Codec, files: Files, items: seq<BibliographyItem>, o: Identity)
    ensures Map(ItemRowOf(o, ValuesIn(c, files, BibliographyPath(DirectoryOf(o)))),
                Map(ItemDocument, ItemsOf(items, o)))
            == Map(ItemIn(c, files), ItemsOf(items, o))
  {
    ItemsOfOwner(items, o);
    MapComposed(ItemDocument, ItemRowOf(o, ValuesIn(c, files, BibliographyPath(DirectoryOf(o)))), ItemIn(c, files),
                ItemsOf(items, o));
  }

  function ItemsIn(c: Codec, files: Files, items: seq<BibliographyItem>, owners: seq<Identity>): seq<ArchiveItem> {
    Map(ItemIn(c, files), Flatten(Map(ItemsFor(items), owners)))
  }

  lemma {:induction false} ItemsGrow(c: Codec, files: Files, items: seq<BibliographyItem>, owners: seq<Identity>,
                                     k: nat)
    requires k < |owners|
    ensures ItemsIn(c, files, items, owners[..k + 1])
            == ItemsIn(c, files, items, owners[..k]) + Map(ItemIn(c, files), ItemsOf(items, owners[k]))
  {
    FlattenMapGrows(ItemsFor(items), owners, k);
    MapSplits(ItemIn(c, files), Flatten(Map(ItemsFor(items), owners[..k])), ItemsOf(items, owners[k]));
  }

  // An import of the manifest collects the rows of the groups, one after the other.
  lemma {:induction false} ExportedRows(c: Codec, s: Snapshot, items: seq<BibliographyItem>, files: Files,
                                        importedAt: I64,
                                        row: Note -> ArchiveNote, attachments: Note -> seq<ArchiveAttachment>,
                                        acl: Note -> seq<ArchiveAcl>, owners: seq<Identity>)
    requires forall n | n in LiveNotes(s) :: RowsAre(c, s, files, importedAt, row, attachments, acl, n)
    ensures AddOwners(c, files, importedAt, OwnerDocuments(c.env, s, items, owners))
            == Plus(NO_ROWS, row, attachments, acl, NoteDocument(c.env, s), GroupsOf(s, owners))
                 .(items := ItemsIn(c, files, items, owners))
  {
    if owners == [] {
      PlusNothing(row, attachments, acl, NoteDocument(c.env, s));
    } else {
      var k := |owners| - 1;
      ExportedRows(c, s, items, files, importedAt, row, attachments, acl, owners[..k]);
      NotesOfOwner(s, owners[k]);
      var before := AddOwners(c, files, importedAt, OwnerDocuments(c.env, s, items, owners[..k]));
      OwnerRowsAre(c, s, files, importedAt, row, attachments, acl, owners[k], before);
      OwnerItemsAre(c, files, items, owners[k]);
      LastOwner(c, s, items, files, importedAt, owners);
      assert owners[..k + 1] == owners;
      GroupsGrow(s, owners, k);
      ItemsGrow(c, files, items, owners, k);
      OneMoreGroup(row, attachments, acl, NoteDocument(c.env, s), GroupsOf(s, owners[..k]), NotesOf(s, owners[k]),
                   ItemsIn(c, files, items, owners[..k]), Map(ItemIn(c, files), ItemsOf(items, owners[k])));
    }
  }

  lemma {:induction false} OneMoreGroup(row: Note -> ArchiveNote, attachments: Note -> seq<ArchiveAttachment>,
                                        acl: Note -> seq<ArchiveAcl>, document: Note -> DocumentNote, a: seq<Note>,
                                        b: seq<Note>,
                                        x: seq<ArchiveItem>, y: seq<ArchiveItem>)
    ensures var rows := Plus(Plus(NO_ROWS, row, attachments, acl, document, a).(items := x), row, attachments, acl,
                             document, b);
            rows.(items := rows.items + y) == Plus(NO_ROWS, row, attachments, acl, document, a + b).(items := x + y)
  {
    PlusSplits(NO_ROWS, row, attachments, acl, document, a, b);
  }

  lemma {:induction false} PlusNothing(row: Note -> ArchiveNote, attachments: Note -> seq<ArchiveAttachment>,
                                       acl: Note -> seq<ArchiveAcl>, document: Note -> DocumentNote)
    ensures Plus(NO_ROWS, row, attachments, acl, document, []) == NO_ROWS
  {
  }

  lemma {:induction false} LastOwner(c: Codec, s: Snapshot, items: seq<BibliographyItem>, files: Files, importedAt: I64,
                                     owners: seq<Identity>)
    requires owners != []
    ensures var k := |owners| - 1;
            var before := AddOwners(c, files, importedAt, OwnerDocuments(c.env, s, items, owners[..k]));
            var rows := AddNotes(c, files, importedAt, owners[k], before,
                                 Map(NoteDocument(c.env, s), NotesOf(s, owners[k])));
            AddOwners(c, files, importedAt, OwnerDocuments(c.env, s, items, owners))
            == rows.(items := rows.items
                              + Map(ItemRowOf(owners[k], ValuesIn(c, files, BibliographyPath(DirectoryOf(owners[k])))),
                                    Map(ItemDocument, ItemsOf(items, owners[k]))))
  {
    LastOf(c, files, importedAt, OwnerDocument(c.env, s, items), owners);
    OwnerDocumentIs(c.env, s, items, owners[|owners| - 1]);
  }

  lemma {:induction false} LastOf(c: Codec, files: Files, importedAt: I64, document: Identity -> DocumentOwner,
                                  owners: seq<Identity>)
    requires owners != []
    ensures var k := |owners| - 1;
            AddOwners(c, files, importedAt, Map(document, owners))
            == AddOwner(c, files, importedAt, AddOwners(c, files, importedAt, Map(document, owners[..k])),
                        document(owners[k]))
  {
    var k := |owners| - 1;
    var all := Map(document, owners);
    assert all[..k] == Map(document, owners[..k]);
    AddOwnersGrows(c, files, importedAt, all, k);
    assert all[..k + 1] == all;
  }
}
