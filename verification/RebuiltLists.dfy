// Exporting what was read from an archive, editing the documents and importing them: exactly when the rebuilt
// archive is accepted (crates/marginalis-archive/src/documents.rs, crates/marginalis-archive/src/archive.rs).
module RebuiltLists {
  import opened Options
  import opened Domain
  import opened Unicode
  import opened Sequences
  import opened Sorting
  import opened Principals
  import opened Snapshots
  import opened Archives
  import opened ArchiveContents
  import opened Flattening
  import opened ArchivePrincipals
  import opened ArchiveRereading
  import opened AcceptedContents
  import opened Bibliographies
  import opened DocumentExports
  import opened DocumentImports
  import opened DocumentRows
  import opened DocumentGrouping
  import opened DocumentRoundTrip
  import opened DocumentConservation

  // An import of the documents of a snapshot.
  datatype Import = Import(c: Codec, s: Snapshot, items: seq<BibliographyItem>, files: Files, importedAt: I64)

  // ---------------------------------------------------------------- the rebuilt table

  function PrimaryOf(p: ArchivePrincipal): Identity { p.primary }

  lemma {:induction false} IdentitiesOfLones(entries: seq<ArchivePrincipal>)
    requires forall p | p in entries :: p.aliases == []
    ensures AllIdentities(entries) == Map(PrimaryOf, entries)
  {
    if entries != [] {
      assert entries[0] in entries;
      assert forall p | p in entries[1..] :: p in entries;
      IdentitiesOfLones(entries[1..]);
      assert IdentitiesOf(entries[0]) == [entries[0].primary];
    }
  }

  lemma {:induction false} LonesAreOk(env: Environment, entries: seq<ArchivePrincipal>)
    requires UniqueKeys(entries, PrincipalKey)
    requires forall p | p in entries :: p.aliases == [] && env.validIdentity(p.primary)
    ensures EntriesOk(env, entries)
  {
    IdentitiesOfLones(entries);
    forall i, j | 0 <= i < j < |entries|
      ensures entries[i].primary != entries[j].primary
    {
      assert PrincipalKey(entries[i]) != PrincipalKey(entries[j]);
    }
    forall i | 0 <= i < |entries|
      ensures EntryOk(env, entries[i])
    {
      assert entries[i] in entries;
      assert IdentitiesOf(entries[i]) == [entries[i].primary];
    }
  }

  // Every identity that a row names can be referred to.
  ghost predicate TableFor(env: Environment, table: seq<Principal>, rows: Rows) {
    Declared(table) && forall i | RowsName(rows, i) :: RefOf(env, table, i).Some?
  }

  lemma {:induction false} RebuiltTable(env: Environment, rows: Rows, packageVersion: string)
    requires forall i | RowsName(rows, i) :: env.validIdentity(i)
    ensures var entries := RebuildingOf(rows, packageVersion).archive.principals.value;
            DeclaredPrincipals(env, entries).Some? && TableFor(env, DeclaredPrincipals(env, entries).value, rows)
  {
    var r := RebuildingOf(rows, packageVersion);
    var entries := r.archive.principals.value;
    RowsDeclareOnce(rows, packageVersion);
    forall p | p in entries
      ensures p.aliases == [] && env.validIdentity(p.primary)
    {
      assert p == Lone(p.primary);
      ArchiveNames(rows, packageVersion, p.primary);
    }
    LonesAreOk(env, entries);
    DeclaredPrincipalsAreDeclared(env, entries);
    forall i | RowsName(rows, i)
      ensures RefOf(env, DeclaredPrincipals(env, entries).value, i).Some?
    {
      ArchiveNames(rows, packageVersion, i);
      assert Lone(i) in entries;
      LoneIsFound(entries, i);
    }
  }

  lemma {:induction false} LoneIsFound(entries: seq<ArchivePrincipal>, i: Identity)
    requires Lone(i) in entries
    ensures FindPrimary(Numbered(Sort(entries, PrincipalKey)), i).Some?
  {
    var sorted := Sort(entries, PrincipalKey);
    SortMembers(entries, PrincipalKey);
    var k :| 0 <= k < |sorted| && sorted[k] == Lone(i);
    assert Numbered(sorted)[k].primary == i;
    var j := FindPrimaryFinds(Numbered(sorted), i);
  }

  function NewRef(env: Environment, table: seq<Principal>, i: Identity): PrincipalRef {
    var r := RefOf(env, table, i);
    if r.Some? then r.value else PrincipalRef(0, i)
  }

  lemma {:induction false} NewRefsTellApart(env: Environment, table: seq<Principal>, i: Identity, j: Identity)
    requires Declared(table) && RefOf(env, table, i).Some? && RefOf(env, table, j).Some?
    ensures NewRef(env, table, i).primary == i
    ensures NewRef(env, table, i).id == NewRef(env, table, j).id <==> i == j
  {
    RefResolves(env, table, i);
    RefResolves(env, table, j);
    ResolvedPairsAgree(table, NewRef(env, table, i), NewRef(env, table, j));
  }

  lemma {:induction false} NewRefIsDeclared(env: Environment, table: seq<Principal>, i: Identity)
    requires Declared(table) && RefOf(env, table, i).Some?
    ensures IsDeclaredId(table, NewRef(env, table, i).id)
  {
    RefResolves(env, table, i);
    var k := FindFinds(table, NewRef(env, table, i).id);
    assert table[k].id == NewRef(env, table, i).id;
  }

  // ---------------------------------------------------------------- one note

  // The review of a readable note reads again, also when it was written as tracked.
  lemma {:induction false} ReviewIsReadAgain(env: Environment, table: seq<Principal>, n: Note, tracked: bool)
    requires NoteReadable(env, n) && RefOf(env, table, n.owner.primary).Some?
    ensures var f := if tracked then WriteReview(n.review).(trackingKnown := true) else WriteReview(n.review);
            var review := ReadReview(env, table, NewRef(env, table, n.owner.primary), f);
            && review.Some?
            && (LastReview(n.review).None? ==> LastReview(review.value).None?)
            && (LastReview(n.review).Some? ==>
                  && LastReview(review.value).Some?
                  && LastReview(review.value).value
                     == LastReview(n.review).value.(reviewer := NewRef(env, table, n.owner.primary)))
  {
    if LastReview(n.review).Some? {
      var r := LastReview(n.review).value;
      assert Identity(r.reviewer.primary.issuer, r.reviewer.primary.subject) == n.owner.primary;
    }
  }

  lemma {:induction false} LiveRowReads(c: Codec, table: seq<Principal>, n: Note, contents: seq<Byte>, importedAt: I64)
    requires NoteReadable(c.env, n) && n.deletedAt.None? && RefOf(c.env, table, n.owner.primary).Some?
    ensures var row := NextRow(c, n, contents, importedAt);
            var m := ReadNote(c.env, table, row);
            && (m.Some? <==> c.env.validate(row.source).Some?)
            && (m.Some? ==>
                  m.value.noteId == n.noteId && m.value.owner == NewRef(c.env, table, n.owner.primary)
                      && m.value.revision == row.revision)
  {
    ReviewIsReadAgain(c.env, table, n, false);
    ReviewIsReadAgain(c.env, table, n, true);
  }

  // The revision row of a note that reads is read as its current revision, whatever attachments it lists.
  lemma {:induction false} RevisionRowReads(env: Environment, table: seq<Principal>, notes: seq<Note>, row: ArchiveNote,
                                            m: Note,
                                            ids: map<string, seq<string>>, attachmentIds: seq<string>)
    requires ReadNote(env, table, row) == Some(m) && row.provenance.Some? && CurrentNote(notes, m.noteId) == Some(m)
    ensures ReadRevision(env, table, notes, RevisionRow(ids)(row).(attachmentIds := attachmentIds)) == Some(Baseline(m))
  {
  }

  // ---------------------------------------------------------------- the lists of the rebuilt archive

  function Row(x: Import): Note -> ArchiveNote {
    LiveRow(x.c, x.files, x.importedAt)
  }

  function RevisionOfRow(x: Import): Note -> ArchiveRevision {
    (n: Note) => SortIds(LiveRevision(x.c, x.s, x.files, x.importedAt)(n))
  }

  function KeyOfRevision(x: Import): Note -> Key {
    (n: Note) => ArchiveRevisionKey(RevisionOfRow(x)(n))
  }

  function CurrentFor(s: Snapshot): Note -> seq<StoredAttachment> {
    (n: Note) => CurrentAttachments(s, n)
  }

  function GrantsFor(s: Snapshot): Note -> seq<NoteAcl> {
    (n: Note) => Filter(GrantsOn(n.noteId), s.acl)
  }

  function NotesInOrder(x: Import): seq<Note> {
    Sort(Grouped(x.s, x.items), NoteIdKey)
  }

  function NotesByRevision(x: Import): seq<Note> {
    Sort(Grouped(x.s, x.items), KeyOfRevision(x))
  }

  function AttachmentsInOrder(x: Import): seq<StoredAttachment> {
    Sort(Flatten(Map(CurrentFor(x.s), Grouped(x.s, x.items))), AttachmentIdKey)
  }

  function GrantsInOrder(x: Import): seq<NoteAcl> {
    Sort(Flatten(Map(GrantsFor(x.s), Grouped(x.s, x.items))), WrittenAclKey)
  }

  function CollectedBy(x: Import): Rows {
    CollectedRows(x.c, x.s, x.items, x.files, x.importedAt)
  }

  function ArchiveBy(x: Import): Archive {
    RebuildingOf(CollectedBy(x), x.c.env.packageVersion).archive
  }

  lemma {:induction false} NoteList(x: Import)
    ensures ArchiveBy(x).notes == Map(Row(x), NotesInOrder(x))
  {
    var row, grouped := Row(x), Grouped(x.s, x.items);
    PlusIsMap(row, LiveAttachments(x.c.env, x.s), LiveAcl(x.s), NoteDocument(x.c.env, x.s), grouped);
    SortMaps(row, grouped, NoteIdKey, NoteKey);
  }

  lemma {:induction false} RevisionList(x: Import)
    requires Exportable(x.c.env, x.s)
    ensures HasParts(ArchiveBy(x)) && ArchiveBy(x).revisions.value == Map(RevisionOfRow(x), NotesByRevision(x))
  {
    var grouped := Grouped(x.s, x.items);
    PlusIsMap(Row(x), LiveAttachments(x.c.env, x.s), LiveAcl(x.s), NoteDocument(x.c.env, x.s), grouped);
    GroupedRevisions(x.c, x.s, x.items, x.files, x.importedAt);
    var live := LiveRevision(x.c, x.s, x.files, x.importedAt);
    MapComposed(live, SortIds, RevisionOfRow(x), grouped);
    SortMaps(RevisionOfRow(x), grouped, KeyOfRevision(x), ArchiveRevisionKey);
  }

  lemma {:induction false} AttachmentList(x: Import)
    ensures HasParts(ArchiveBy(x))
            && ArchiveBy(x).attachments.value == Map(AttachmentWriter(x.c.env), AttachmentsInOrder(x))
  {
    var grouped := Grouped(x.s, x.items);
    PlusIsMap(Row(x), LiveAttachments(x.c.env, x.s), LiveAcl(x.s), NoteDocument(x.c.env, x.s), grouped);
    MapOfFlatten(AttachmentWriter(x.c.env), CurrentFor(x.s), LiveAttachments(x.c.env, x.s), grouped);
    SortMaps(AttachmentWriter(x.c.env), Flatten(Map(CurrentFor(x.s), grouped)), AttachmentIdKey, ArchiveAttachmentKey);
  }

  lemma {:induction false} GrantList(x: Import)
    ensures ArchiveBy(x).acl == Map(WriteAcl, GrantsInOrder(x))
  {
    var grouped := Grouped(x.s, x.items);
    PlusIsMap(Row(x), LiveAttachments(x.c.env, x.s), LiveAcl(x.s), NoteDocument(x.c.env, x.s), grouped);
    MapOfFlatten(WriteAcl, GrantsFor(x.s), LiveAcl(x.s), grouped);
    SortMaps(WriteAcl, Flatten(Map(GrantsFor(x.s), grouped)), WrittenAclKey, ArchiveAclKey);
  }

  lemma {:induction false} ListedNotes(x: Import)
    requires NotesOk(x.s.notes)
    ensures forall n :: n in NotesInOrder(x) <==> n in LiveNotes(x.s)
    ensures forall n :: n in NotesByRevision(x) <==> n in LiveNotes(x.s)
    ensures UniqueKeys(NotesInOrder(x), NoteIdKey) && multiset(NotesByRevision(x)) == multiset(NotesInOrder(x))
  {
    var grouped := Grouped(x.s, x.items);
    LiveNotesAreUnique(x.s, x.items);
    GroupedIsLive(x.s, x.items);
    PermutationMembers(grouped, LiveNotes(x.s));
    SortMembers(grouped, NoteIdKey);
    SortMembers(grouped, KeyOfRevision(x));
    SortPermutes(grouped, NoteIdKey);
    SortPermutes(grouped, KeyOfRevision(x));
    UniqueKeysOfSort(grouped, NoteIdKey);
  }

  lemma {:induction false} ListedAttachments(x: Import)
    requires NotesOk(x.s.notes)
    ensures forall a ::
                a in AttachmentsInOrder(x) <==> exists n | n in LiveNotes(x.s) :: a in CurrentAttachments(x.s, n)
  {
    var grouped := Grouped(x.s, x.items);
    GroupedIsLive(x.s, x.items);
    PermutationMembers(grouped, LiveNotes(x.s));
    SortMembers(Flatten(Map(CurrentFor(x.s), grouped)), AttachmentIdKey);
    forall a
      ensures a in Flatten(Map(CurrentFor(x.s), grouped))
              <==> exists n | n in LiveNotes(x.s) :: a in CurrentAttachments(x.s, n)
    {
      ListedIn(CurrentFor(x.s), grouped, a);
    }
  }

  lemma {:induction false} ListedGrants(x: Import)
    requires NotesOk(x.s.notes)
    ensures forall e ::
              e in GrantsInOrder(x) <==> e in x.s.acl && exists n | n in LiveNotes(x.s) :: n.noteId == e.noteId
  {
    var grouped := Grouped(x.s, x.items);
    GroupedIsLive(x.s, x.items);
    PermutationMembers(grouped, LiveNotes(x.s));
    SortMembers(Flatten(Map(GrantsFor(x.s), grouped)), WrittenAclKey);
    forall e
      ensures e in Flatten(Map(GrantsFor(x.s), grouped))
         <==> e in x.s.acl && exists n | n in LiveNotes(x.s) :: n.noteId == e.noteId
    {
      ListedIn(GrantsFor(x.s), grouped, e);
      forall n: Note
        ensures e in GrantsFor(x.s)(n) <==> e in x.s.acl && n.noteId == e.noteId
      {
        FilterMembers(GrantsOn(n.noteId), x.s.acl);
      }
    }
  }
}
