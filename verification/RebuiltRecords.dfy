// The archive that an import rebuilds, read as records that fit together
// (crates/marginalis-archive/src/documents.rs, crates/marginalis-archive/src/archive.rs).
module RebuiltRecords {
  import opened Options
  import opened Domain
  import opened Sequences
  import opened Sorting
  import opened Principals
  import opened Snapshots
  import opened SnapshotHistory
  import opened Archives
  import opened ArchiveContents
  import opened Flattening
  import opened ArchiveReading
  import opened ArchiveRereading
  import opened ArchiveMigration
  import opened AcceptedContents
  import opened Bibliographies
  import opened DocumentPaths
  import opened DocumentExports
  import opened DocumentImports
  import opened DocumentRows
  import opened DocumentGrouping
  import opened DocumentRoundTrip
  import opened DocumentConservation
  import opened RebuiltLists

  // ---------------------------------------------------------------- who is named

  lemma {:induction false} RowIdentities(env: Environment, x: Import, n: Note, i: Identity)
    requires NoteReadable(env, n)
    ensures i in NoteIdentities(Row(x)(n)) <==> i == n.owner.primary
  {
    var row := Row(x)(n);
    assert row.creator == n.owner.primary && row.provenance.Some?;
    var f := WriteReview(n.review);
    assert row.provenance.value.review.issuer == f.issuer && row.provenance.value.review.subject == f.subject;
  }

  lemma {:induction false} CollectedLists(x: Import)
    ensures var rows := CollectedBy(x);
            && rows.notes == Map(Row(x), Grouped(x.s, x.items))
            && rows.acl == Map(WriteAcl, Flatten(Map(GrantsFor(x.s), Grouped(x.s, x.items))))
            && rows.attachments == Map(AttachmentWriter(x.c.env), Flatten(Map(CurrentFor(x.s), Grouped(x.s, x.items))))
            && rows.items == Map(ItemIn(x.c, x.files), GroupedItems(x.s, x.items))
  {
    var grouped := Grouped(x.s, x.items);
    PlusIsMap(Row(x), LiveAttachments(x.c.env, x.s), LiveAcl(x.s), NoteDocument(x.c.env, x.s), grouped);
    MapOfFlatten(WriteAcl, GrantsFor(x.s), LiveAcl(x.s), grouped);
    MapOfFlatten(AttachmentWriter(x.c.env), CurrentFor(x.s), LiveAttachments(x.c.env, x.s), grouped);
  }

  lemma {:induction false} CollectedNotes(x: Import)
    ensures CollectedBy(x).notes == Map(Row(x), Grouped(x.s, x.items))
  {
    CollectedLists(x);
  }

  // The identities that the collected rows name: owners of live notes, their grantees, those who stored
  // their attachments, and owners of items.
  ghost predicate IsNamed(x: Import, i: Identity) {
    || SomeOwnerIs(LiveNotes(x.s), i)
    || (exists e | e in GrantsInOrder(x) :: Grantee(e) == i)
    || (exists a | a in AttachmentsInOrder(x) :: Storer(a) == i)
    || exists item | item in x.items :: ItemOwner(item) == i
  }

  lemma {:induction false} ReadableNotesName(x: Import, notes: seq<Note>, i: Identity)
    requires forall n | n in notes :: NoteReadable(x.c.env, n)
    ensures (exists r | r in Map(Row(x), notes) :: i in NoteIdentities(r))
            <==> exists n | n in notes :: n.owner.primary == i
  {
    forall r | r in Map(Row(x), notes) && i in NoteIdentities(r)
      ensures exists n | n in notes :: n.owner.primary == i
    {
      var k := MapIndex(Row(x), notes, r);
      assert notes[k] in notes;
      RowIdentities(x.c.env, x, notes[k], i);
    }
    forall n | n in notes && n.owner.primary == i
      ensures exists r | r in Map(Row(x), notes) :: i in NoteIdentities(r)
    {
      InMap(Row(x), notes, Row(x)(n));
      RowIdentities(x.c.env, x, n, i);
    }
  }

  lemma {:induction false} GroupedAreReadable(x: Import)
    requires Readable(x.c.env, x.s)
    ensures forall n :: n in Grouped(x.s, x.items) <==> n in LiveNotes(x.s)
    ensures forall n | n in Grouped(x.s, x.items) :: NoteReadable(x.c.env, n)
  {
    GroupedIsLive(x.s, x.items);
    PermutationMembers(Grouped(x.s, x.items), LiveNotes(x.s));
    LiveNotesAreNotes(x.s);
  }

  predicate SomeRowNames(rows: seq<ArchiveNote>, i: Identity) {
    exists r | r in rows :: i in NoteIdentities(r)
  }

  predicate SomeOwnerIs(notes: seq<Note>, i: Identity) {
    exists n | n in notes :: n.owner.primary == i
  }

  lemma {:induction false} RowsOfNotesName(x: Import, i: Identity)
    requires Readable(x.c.env, x.s)
    ensures SomeRowNames(Map(Row(x), Grouped(x.s, x.items)), i) <==> SomeOwnerIs(LiveNotes(x.s), i)
  {
    GroupedAreReadable(x);
    ReadableNotesName(x, Grouped(x.s, x.items), i);
  }

  lemma {:induction false} NotesName(x: Import, i: Identity)
    requires Readable(x.c.env, x.s)
    ensures SomeRowNames(CollectedBy(x).notes, i) <==> SomeOwnerIs(LiveNotes(x.s), i)
  {
    CollectedNotes(x);
    RowsOfNotesName(x, i);
  }

  // What the images under a map name, when the map keeps the identity.
  lemma {:induction false} NamedThroughMap<T, B>(f: T -> B, s: seq<T>, ofImage: B -> Identity, of: T -> Identity,
                                                 i: Identity)
    requires forall t :: ofImage(f(t)) == of(t)
    ensures (exists r | r in Map(f, s) :: ofImage(r) == i) <==> exists t | t in s :: of(t) == i
  {
    forall r | r in Map(f, s) && ofImage(r) == i
      ensures exists t | t in s :: of(t) == i
    {
      var k := MapIndex(f, s, r);
      assert s[k] in s;
      assert ofImage(f(s[k])) == of(s[k]);
    }
    forall t | t in s && of(t) == i
      ensures exists r | r in Map(f, s) :: ofImage(r) == i
    {
      InMap(f, s, f(t));
    }
  }

  function Grantee(e: NoteAcl): Identity { e.principal.primary }

  function Storer(a: StoredAttachment): Identity { a.createdBy.primary }

  lemma {:induction false} GrantsName(x: Import, i: Identity)
    ensures (exists r | r in CollectedBy(x).acl :: AclIdentity(r) == i)
            <==> exists e | e in GrantsInOrder(x) :: Grantee(e) == i
  {
    CollectedLists(x);
    var grants := Flatten(Map(GrantsFor(x.s), Grouped(x.s, x.items)));
    SortMembers(grants, WrittenAclKey);
    NamedThroughMap(WriteAcl, grants, AclIdentity, Grantee, i);
  }

  lemma {:induction false} AttachmentsName(x: Import, i: Identity)
    ensures (exists r | r in CollectedBy(x).attachments :: CreatorIdentity(r) == i)
       <==> exists a | a in AttachmentsInOrder(x) :: Storer(a) == i
  {
    CollectedLists(x);
    var attachments := Flatten(Map(CurrentFor(x.s), Grouped(x.s, x.items)));
    SortMembers(attachments, AttachmentIdKey);
    NamedThroughMap(AttachmentWriter(x.c.env), attachments, CreatorIdentity, Storer, i);
  }

  lemma {:induction false} ItemKeepsOwner(c: Codec, files: Files, item: BibliographyItem)
    ensures ItemIn(c, files)(item).owner == item.owner.primary
  {
    var values := ValuesIn(c, files, BibliographyPath(DirectoryOf(item.owner.primary)));
    assert ItemIn(c, files)(item) == ItemRowOf(item.owner.primary, values)(ItemDocument(item));
  }

  lemma {:induction false} ItemsName(x: Import, i: Identity)
    ensures (exists r | r in CollectedBy(x).items :: ItemIdentity(r) == i)
            <==> exists item | item in x.items :: ItemOwner(item) == i
  {
    CollectedLists(x);
    GroupedItemsAreItems(x.s, x.items);
    PermutationMembers(GroupedItems(x.s, x.items), x.items);
    var f := ItemIn(x.c, x.files);
    forall item
      ensures ItemIdentity(f(item)) == ItemOwner(item)
    {
      ItemKeepsOwner(x.c, x.files, item);
    }
    NamedThroughMap(f, GroupedItems(x.s, x.items), ItemIdentity, ItemOwner, i);
  }

  lemma {:induction false} WhoIsNamed(x: Import, i: Identity)
    requires Readable(x.c.env, x.s)
    ensures RowsName(CollectedBy(x), i) <==> IsNamed(x, i)
  {
    NotesName(x, i);
    GrantsName(x, i);
    AttachmentsName(x, i);
    ItemsName(x, i);
  }

  predicate OwnersValid(env: Environment, items: seq<BibliographyItem>) {
    forall item | item in items :: env.validIdentity(item.owner.primary)
  }

  lemma {:induction false} SelectedAreStored(x: Import)
    requires Readable(x.c.env, x.s)
    ensures forall a | a in AttachmentsInOrder(x) :: a in x.s.attachments
    ensures forall e | e in GrantsInOrder(x) :: e in x.s.acl
    ensures forall n | n in LiveNotes(x.s) :: n in x.s.notes && n.deletedAt.None?
  {
    ListedAttachments(x);
    ListedGrants(x);
    LiveNotesAreNotes(x.s);
    forall a | a in AttachmentsInOrder(x)
      ensures a in x.s.attachments
    {
      var n :| n in LiveNotes(x.s) && a in CurrentAttachments(x.s, n);
      CurrentBelong(x.s, n);
    }
  }

  // The table of the rebuilt archive.
  lemma {:induction false} TableIsRebuilt(x: Import) returns (table: seq<Principal>)
    requires Readable(x.c.env, x.s) && OwnersValid(x.c.env, x.items)
    ensures DeclaredPrincipals(x.c.env, ArchiveBy(x).principals.value) == Some(table)
    ensures Declared(table) && forall i | IsNamed(x, i) :: RefOf(x.c.env, table, i).Some?
  {
    SelectedAreStored(x);
    forall i | RowsName(CollectedBy(x), i)
      ensures x.c.env.validIdentity(i)
    {
      WhoIsNamed(x, i);
      NamedIsValid(x, i);
    }
    RebuiltTable(x.c.env, CollectedBy(x), x.c.env.packageVersion);
    table := DeclaredPrincipals(x.c.env, ArchiveBy(x).principals.value).value;
    forall i | IsNamed(x, i)
      ensures RefOf(x.c.env, table, i).Some?
    {
      WhoIsNamed(x, i);
    }
  }

  lemma {:induction false} NamedIsValid(x: Import, i: Identity)
    requires Readable(x.c.env, x.s) && OwnersValid(x.c.env, x.items) && IsNamed(x, i)
    ensures x.c.env.validIdentity(i)
  {
    SelectedAreStored(x);
    if n :| n in LiveNotes(x.s) && n.owner.primary == i {
      assert NoteReadable(x.c.env, n);
    } else if e :| e in GrantsInOrder(x) && Grantee(e) == i {
      assert GrantReadable(x.c.env, e);
    } else if a :| a in AttachmentsInOrder(x) && Storer(a) == i {
      assert AttachmentReadable(x.c.env, a);
    }
  }

  // ---------------------------------------------------------------- the records of the rebuilt archive

  function NoteAgain(x: Import, table: seq<Principal>): Note -> Note {
    (n: Note) => var m := ReadNote(x.c.env, table, Row(x)(n)); if m.Some? then m.value else n
  }

  function BaselineAgain(x: Import, table: seq<Principal>): Note -> NoteRevision {
    (n: Note) => Baseline(NoteAgain(x, table)(n))
  }

  function GrantAgain(env: Environment, table: seq<Principal>): NoteAcl -> NoteAcl {
    (e: NoteAcl) => e.(principal := NewRef(env, table, e.principal.primary))
  }

  function AttachmentAgain(env: Environment, table: seq<Principal>): StoredAttachment -> StoredAttachment {
    (a: StoredAttachment) => a.(createdBy := NewRef(env, table, a.createdBy.primary))
  }

  function RevisionNumber(x: Import, n: Note): Revision {
    var revision := Row(x)(n).revision;
    if revision >= 1 then revision else 1
  }

  function ReferencesAgain(x: Import): Note -> seq<AttachmentReference> {
    (n: Note) => Map(ReferenceTo(n.noteId, RevisionNumber(x, n)), RevisionOfRow(x)(n).attachmentIds)
  }

  function RebuiltParts(x: Import, table: seq<Principal>): Parts {
    Parts(table, Map(NoteAgain(x, table), NotesInOrder(x)), Map(BaselineAgain(x, table), NotesByRevision(x)),
          Map(GrantAgain(x.c.env, table), GrantsInOrder(x)),
          Map(AttachmentAgain(x.c.env, table), AttachmentsInOrder(x)),
          Map(ReferencesAgain(x), NotesByRevision(x)))
  }

  // The source of the note, as it comes back, uses the attachments of its current revision.
  predicate SourceFits(x: Import, n: Note) {
    var draft := x.c.env.validate(Row(x)(n).source);
    draft.Some? && IdsMatch(draft.value, CurrentIds(x.s, n))
  }

  ghost predicate SourcesFit(x: Import) {
    forall n | n in LiveNotes(x.s) :: SourceFits(x, n)
  }

  // What is assumed of the import and of the table.
  ghost predicate Ready(x: Import, table: seq<Principal>) {
    && LawfulCodec(x.c) && Readable(x.c.env, x.s) && Exportable(x.c.env, x.s)
    && Declared(table) && forall i | IsNamed(x, i) :: RefOf(x.c.env, table, i).Some?
  }

  lemma {:induction false} LiveNoteReads(x: Import, table: seq<Principal>, n: Note)
    requires Ready(x, table) && n in LiveNotes(x.s)
    ensures ReadNote(x.c.env, table, Row(x)(n)).Some? <==> x.c.env.validate(Row(x)(n).source).Some?
    ensures ReadNote(x.c.env, table, Row(x)(n)).Some? ==>
              var m := NoteAgain(x, table)(n);
              && m.noteId == n.noteId && m.owner == NewRef(x.c.env, table, n.owner.primary)
              && m.revision == RevisionNumber(x, n)
  {
    SelectedAreStored(x);
    assert NoteReadable(x.c.env, n);
    assert IsNamed(x, n.owner.primary);
    LiveRowReads(x.c, table, n, ContentsOf(x.files, PathOf(n)), x.importedAt);
  }

  lemma {:induction false} NoteIsReadAgain(x: Import, table: seq<Principal>, n: Note)
    requires Ready(x, table) && SourcesFit(x) && n in LiveNotes(x.s)
    ensures NoteReader(x.c.env, table)(Row(x)(n)) == Some(NoteAgain(x, table)(n))
    ensures NoteAgain(x, table)(n).noteId == n.noteId
  {
    assert SourceFits(x, n);
    LiveNoteReads(x, table, n);
  }

  lemma {:induction false} NotesAreReadAgain(x: Import, table: seq<Principal>)
    requires Ready(x, table) && SourcesFit(x)
    ensures Traverse(NoteReader(x.c.env, table), ArchiveBy(x).notes) == Some(Map(NoteAgain(x, table), NotesInOrder(x)))
    ensures NotesOk(Map(NoteAgain(x, table), NotesInOrder(x)))
  {
    NoteList(x);
    ListedNotes(x);
    var notes, reader, again := NotesInOrder(x), NoteReader(x.c.env, table), NoteAgain(x, table);
    forall n | n in notes
      ensures reader(Row(x)(n)) == Some(again(n)) && again(n).noteId == n.noteId
    {
      NoteIsReadAgain(x, table, n);
    }
    TraverseOfMap(reader, Row(x), again, notes);
    IdsStayUnique(notes, again);
  }

  lemma {:induction false} IdsStayUnique(notes: seq<Note>, again: Note -> Note)
    requires UniqueKeys(notes, NoteIdKey) && forall n | n in notes :: again(n).noteId == n.noteId
    ensures NotesOk(Map(again, notes))
  {
    var read := Map(again, notes);
    forall i | 0 <= i < |read|
      ensures NoteOk(read, i)
    {
      forall j | 0 <= j < i
        ensures read[j].noteId != read[i].noteId
      {
        assert notes[i] in notes && notes[j] in notes;
        assert NoteIdKey(notes[j]) != NoteIdKey(notes[i]);
      }
    }
  }

  lemma {:induction false} RevisionOfRowIs(x: Import, n: Note)
    ensures RevisionOfRow(x)(n)
            == RevisionRow(map[n.noteId := CurrentIds(x.s, n)])(Row(x)(n)).(attachmentIds :=
                Sort(CurrentIds(x.s, n), TextKey))
    ensures Row(x)(n).noteId == n.noteId && Row(x)(n).provenance.Some?
  {
    RowKeepsId(x.c, x.files, x.importedAt, n);
    var row := Row(x)(n);
    var revision := RevisionRow(map[n.noteId := CurrentIds(x.s, n)])(row);
    assert revision.attachmentIds == CurrentIds(x.s, n);
    assert LiveRevision(x.c, x.s, x.files, x.importedAt)(n) == revision;
    assert RevisionOfRow(x)(n) == SortIds(revision);
  }

  lemma {:induction false} RevisionIsReadAgain(x: Import, table: seq<Principal>, n: Note)
    requires Ready(x, table) && SourcesFit(x) && n in LiveNotes(x.s)
    ensures ReadRevision(x.c.env, table, Map(NoteAgain(x, table), NotesInOrder(x)), RevisionOfRow(x)(n))
            == Some(BaselineAgain(x, table)(n))
  {
    NotesAreReadAgain(x, table);
    ListedNotes(x);
    assert SourceFits(x, n);
    LiveNoteReads(x, table, n);
    NoteIsCurrent(NotesInOrder(x), NoteAgain(x, table), n);
    RevisionOfRowIs(x, n);
    RevisionRowReads(x.c.env, table, Map(NoteAgain(x, table), NotesInOrder(x)), Row(x)(n), NoteAgain(x, table)(n),
                     map[n.noteId := CurrentIds(x.s, n)], Sort(CurrentIds(x.s, n), TextKey));
  }

  lemma {:induction false} NoteIsCurrent(notes: seq<Note>, f: Note -> Note, n: Note)
    requires n in notes && NotesOk(Map(f, notes))
    ensures CurrentNote(Map(f, notes), f(n).noteId) == Some(f(n))
  {
    var k :| 0 <= k < |notes| && notes[k] == n;
    CurrentNoteAt(Map(f, notes), k);
  }

  lemma {:induction false} RevisionsAreReadAgain(x: Import, table: seq<Principal>)
    requires Ready(x, table) && SourcesFit(x)
    ensures HasParts(ArchiveBy(x))
    ensures Traverse(RevisionReader(x.c.env, table, Map(NoteAgain(x, table), NotesInOrder(x))),
                     ArchiveBy(x).revisions.value)
            == Some(Map(BaselineAgain(x, table), NotesByRevision(x)))
  {
    RevisionList(x);
    ListedNotes(x);
    var notes := NotesByRevision(x);
    var reader := RevisionReader(x.c.env, table, Map(NoteAgain(x, table), NotesInOrder(x)));
    forall n | n in notes
      ensures reader(RevisionOfRow(x)(n)) == Some(BaselineAgain(x, table)(n))
    {
      RevisionIsReadAgain(x, table, n);
    }
    TraverseOfMap(reader, RevisionOfRow(x), BaselineAgain(x, table), notes);
  }

  lemma {:induction false} GrantIsReadAgain(env: Environment, table: seq<Principal>, e: NoteAcl)
    requires GrantReadable(env, e) && RefOf(env, table, e.principal.primary).Some?
    ensures ReadAcl(env, table, WriteAcl(e)) == Some(GrantAgain(env, table)(e))
  {
  }

  lemma {:induction false} GrantsAreReadAgain(x: Import, table: seq<Principal>)
    requires Ready(x, table)
    ensures Traverse(AclReader(x.c.env, table), ArchiveBy(x).acl)
            == Some(Map(GrantAgain(x.c.env, table), GrantsInOrder(x)))
  {
    GrantList(x);
    SelectedAreStored(x);
    var grants := GrantsInOrder(x);
    forall e | e in grants
      ensures AclReader(x.c.env, table)(WriteAcl(e)) == Some(GrantAgain(x.c.env, table)(e))
    {
      assert GrantReadable(x.c.env, e) && IsNamed(x, Grantee(e));
      GrantIsReadAgain(x.c.env, table, e);
    }
    TraverseOfMap(AclReader(x.c.env, table), WriteAcl, GrantAgain(x.c.env, table), grants);
  }

  lemma {:induction false} AttachmentIsReadAgain(env: Environment, table: seq<Principal>, a: StoredAttachment)
    requires Lawful(env) && AttachmentReadable(env, a) && RefOf(env, table, a.createdBy.primary).Some?
    ensures ReadAttachment(env, table, AttachmentWriter(env)(a)) == Some(AttachmentAgain(env, table)(a))
  {
    assert env.decode64(env.encode64(a.bytes)) == Some(a.bytes);
  }

  lemma {:induction false} AttachmentsAreReadAgain(x: Import, table: seq<Principal>)
    requires Ready(x, table)
    ensures HasParts(ArchiveBy(x))
    ensures Traverse(AttachmentReader(x.c.env, table), ArchiveBy(x).attachments.value)
            == Some(Map(AttachmentAgain(x.c.env, table), AttachmentsInOrder(x)))
  {
    AttachmentList(x);
    SelectedAreStored(x);
    var attachments := AttachmentsInOrder(x);
    forall a | a in attachments
      ensures AttachmentReader(x.c.env, table)(AttachmentWriter(x.c.env)(a))
              == Some(AttachmentAgain(x.c.env, table)(a))
    {
      assert AttachmentReadable(x.c.env, a) && IsNamed(x, Storer(a));
      AttachmentIsReadAgain(x.c.env, table, a);
    }
    TraverseOfMap(AttachmentReader(x.c.env, table), AttachmentWriter(x.c.env), AttachmentAgain(x.c.env, table),
                  attachments);
  }

  // ---------------------------------------------------------------- attachment lists

  lemma {:induction false} CurrentIdsArePrinted(env: Environment, s: Snapshot, n: Note)
    requires Readable(env, s)
    ensures forall id | id in CurrentIds(s, n) :: env.parseId(id) == Some(id)
    ensures forall id | id in CurrentIds(s, n) :: exists a | a in CurrentAttachments(s, n) :: a.attachmentId == id
  {
    CurrentBelong(s, n);
    var current := CurrentAttachments(s, n);
    forall id | id in CurrentIds(s, n)
      ensures env.parseId(id) == Some(id) && exists a | a in current :: a.attachmentId == id
    {
      var k := MapIndex(IdOf, DocumentAttachments(s, n), id);
      assert current[k] in current;
      assert AttachmentReadable(env, current[k]);
    }
  }

  lemma {:induction false} ListedIdsRead(env: Environment, e: ArchiveRevision, noteId: string, ids: seq<string>)
    requires e.attachmentIds == Sort(ids, TextKey) && env.parseId(e.noteId) == Some(noteId) && e.revision >= 1
    requires env.validate(e.source).Some? && IdsMatch(env.validate(e.source).value, ids)
    requires forall id | id in ids :: env.parseId(id) == Some(id)
    ensures ReadReferences(env, e) == Some(Map(ReferenceTo(noteId, e.revision), e.attachmentIds))
  {
    SortIdempotent(ids, TextKey);
    IdsMatchInAnyOrder(env.validate(e.source).value, ids, e.attachmentIds);
    SortMembers(ids, TextKey);
    forall i | 0 <= i < |e.attachmentIds|
      ensures env.parseId(e.attachmentIds[i]) == Some(e.attachmentIds[i])
    {
      assert e.attachmentIds[i] in ids;
    }
    TraverseAll(env.parseId, e.attachmentIds, e.attachmentIds);
  }

  lemma {:induction false} RowRevisionIsPositive(x: Import, n: Note)
    ensures Row(x)(n).revision >= 1
  {
  }

  lemma {:induction false} ReferencesAreReadFor(x: Import, table: seq<Principal>, n: Note)
    requires Ready(x, table) && SourcesFit(x) && n in LiveNotes(x.s)
    ensures ReadReferences(x.c.env, RevisionOfRow(x)(n)) == Some(ReferencesAgain(x)(n))
  {
    SelectedAreStored(x);
    assert NoteReadable(x.c.env, n) && SourceFits(x, n);
    RowRevisionIsPositive(x, n);
    RevisionOfRowIs(x, n);
    CurrentIdsArePrinted(x.c.env, x.s, n);
    ListedIdsRead(x.c.env, RevisionOfRow(x)(n), n.noteId, CurrentIds(x.s, n));
  }

  lemma {:induction false} ReferencesAreReadAgain(x: Import, table: seq<Principal>)
    requires Ready(x, table) && SourcesFit(x)
    ensures HasParts(ArchiveBy(x))
    ensures Traverse(ReferencesReader(x.c.env), ArchiveBy(x).revisions.value)
            == Some(Map(ReferencesAgain(x), NotesByRevision(x)))
  {
    RevisionList(x);
    ListedNotes(x);
    var notes := NotesByRevision(x);
    forall n | n in notes
      ensures ReferencesReader(x.c.env)(RevisionOfRow(x)(n)) == Some(ReferencesAgain(x)(n))
    {
      ReferencesAreReadFor(x, table, n);
    }
    TraverseOfMap(ReferencesReader(x.c.env), RevisionOfRow(x), ReferencesAgain(x), notes);
  }

  lemma {:induction false} PartsAreReadAgain(x: Import, table: seq<Principal>)
    requires Ready(x, table) && SourcesFit(x)
    requires DeclaredPrincipals(x.c.env, ArchiveBy(x).principals.value) == Some(table)
    ensures HasParts(ArchiveBy(x)) && ReadParts(x.c.env, ArchiveBy(x)) == Some(RebuiltParts(x, table))
  {
    NotesAreReadAgain(x, table);
    RevisionsAreReadAgain(x, table);
    GrantsAreReadAgain(x, table);
    AttachmentsAreReadAgain(x, table);
    ReferencesAreReadAgain(x, table);
    PartsOfLists(x.c.env, ArchiveBy(x), RebuiltParts(x, table));
  }

  // The other way round: an archive that reads has sources that fit.
  lemma {:induction false} ReadSourcesFit(x: Import)
    requires Exportable(x.c.env, x.s) && HasParts(ArchiveBy(x)) && ReadParts(x.c.env, ArchiveBy(x)).Some?
    ensures SourcesFit(x)
  {
    RevisionList(x);
    ListedNotes(x);
    forall n | n in LiveNotes(x.s)
      ensures SourceFits(x, n)
    {
      MappedReads(ReferencesReader(x.c.env), RevisionOfRow(x), NotesByRevision(x), n);
      ReadReferencesFit(x, n);
    }
  }

  lemma {:induction false} MappedReads<T, A, B>(reader: A -> Option<B>, f: T -> A, s: seq<T>, t: T)
    requires t in s && Traverse(reader, Map(f, s)).Some?
    ensures reader(f(t)).Some?
  {
    var k :| 0 <= k < |s| && s[k] == t;
    TraverseAt(reader, Map(f, s), k);
  }

  lemma {:induction false} ReadReferencesFit(x: Import, n: Note)
    requires ReadReferences(x.c.env, RevisionOfRow(x)(n)).Some?
    ensures SourceFits(x, n)
  {
    RevisionOfRowIs(x, n);
    ReadIdsMatch(x.c.env, RevisionOfRow(x)(n));
    SortIdempotent(CurrentIds(x.s, n), TextKey);
    IdsMatchInAnyOrder(x.c.env.validate(Row(x)(n).source).value, RevisionOfRow(x)(n).attachmentIds, CurrentIds(x.s, n));
  }

  lemma {:induction false} ReadIdsMatch(env: Environment, e: ArchiveRevision)
    requires ReadReferences(env, e).Some?
    ensures env.validate(e.source).Some? && IdsMatch(env.validate(e.source).value, e.attachmentIds)
  {
  }
}
