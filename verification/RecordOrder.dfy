// The order of records in what is written, stated on their fields: in canonical archives, in snapshots, in restore
// plans and in exported documents (crates/marginalis-archive/src/archive.rs,
// crates/marginalis-application/src/snapshot.rs and crates/marginalis-archive/src/documents.rs).
module RecordOrder {
  import opened Domain
  import opened Sorting
  import opened TextOrder
  import opened Snapshots
  import opened Archives
  import opened ArchiveContents
  import opened Identities
  import opened Bibliographies
  import opened RestorePlans
  import opened StateHash
  import opened DocumentExports

  // ---------------------------------------------------------------- canonical archives

  predicate IdentityLe(a: Identity, b: Identity) {
    PairLe((a.issuer, a.subject), (b.issuer, b.subject))
  }

  predicate PrincipalLe(a: ArchivePrincipal, b: ArchivePrincipal) {
    IdentityLe(a.primary, b.primary)
  }

  predicate NoteLe(a: ArchiveNote, b: ArchiveNote) {
    TextLe(a.noteId, b.noteId)
  }

  predicate RevisionLe(a: ArchiveRevision, b: ArchiveRevision) {
    TextLess(a.noteId, b.noteId) || (a.noteId == b.noteId && a.revision <= b.revision)
  }

  predicate AttachmentLe(a: ArchiveAttachment, b: ArchiveAttachment) {
    TextLe(a.attachmentId, b.attachmentId)
  }

  predicate AclLe(a: ArchiveAcl, b: ArchiveAcl) {
    TextLess(a.noteId, b.noteId) || (a.noteId == b.noteId && IdentityLe(a.identity, b.identity))
  }

  lemma {:induction false} IdentityOrder(a: Identity, b: Identity)
    ensures KeyLe(IdentityKey(a), IdentityKey(b)) <==> IdentityLe(a, b)
  {
    PairKey((a.issuer, a.subject), (b.issuer, b.subject));
  }

  lemma {:induction false} RevisionOrder(a: ArchiveRevision, b: ArchiveRevision)
    ensures KeyLe(ArchiveRevisionKey(a), ArchiveRevisionKey(b)) <==> RevisionLe(a, b)
  {
    TextFirst(a.noteId, [[a.revision]], b.noteId, [[b.revision]]);
    NumberKey(a.revision, b.revision);
    assert ArchiveRevisionKey(a) == [Points(a.noteId)] + [[a.revision]];
    assert ArchiveRevisionKey(b) == [Points(b.noteId)] + [[b.revision]];
  }

  lemma {:induction false} AclOrder(a: ArchiveAcl, b: ArchiveAcl)
    ensures KeyLe(ArchiveAclKey(a), ArchiveAclKey(b)) <==> AclLe(a, b)
  {
    TextFirst(a.noteId, IdentityKey(a.identity), b.noteId, IdentityKey(b.identity));
    IdentityOrder(a.identity, b.identity);
    assert ArchiveAclKey(a) == [Points(a.noteId)] + IdentityKey(a.identity);
    assert ArchiveAclKey(b) == [Points(b.noteId)] + IdentityKey(b.identity);
  }

  // In a canonical archive principals and aliases come in the order of issuer and subject, notes and attachments in
  // that of their IDs, revisions and access list entries in that of their notes first.
  lemma {:induction false} CanonicalIsInOrder(a: Archive)
    ensures var c := Canonical(a);
            && InOrder(c.notes, NoteLe) && InOrder(c.acl, AclLe)
            && (c.attachments.Some? ==> InOrder(c.attachments.value, AttachmentLe))
            && (c.principals.Some? ==>
                  && InOrder(c.principals.value, PrincipalLe)
                  && forall p | p in c.principals.value :: InOrder(p.aliases, IdentityLe))
            && (c.revisions.Some? ==>
                  && InOrder(c.revisions.value, RevisionLe)
                  && forall e | e in c.revisions.value :: InOrder(e.attachmentIds, TextLe))
  {
    NotesInOrder(a.notes);
    AclsInOrder(a.acl);
    if a.attachments.Some? {
      AttachmentsInOrder(a.attachments.value);
    }
    if a.principals.Some? {
      PrincipalsInOrder(a.principals.value);
    }
    if a.revisions.Some? {
      RevisionsInOrder(a.revisions.value);
    }
  }

  lemma {:induction false} NotesInOrder(notes: seq<ArchiveNote>)
    ensures InOrder(Sort(notes, NoteKey), NoteLe)
  {
    forall x, y | KeyLe(NoteKey(x), NoteKey(y))
      ensures NoteLe(x, y)
    {
      OneTextKey(x.noteId, y.noteId);
    }
    SortInOrder(notes, NoteKey, NoteLe);
  }

  lemma {:induction false} AclsInOrder(acl: seq<ArchiveAcl>)
    ensures InOrder(Sort(acl, ArchiveAclKey), AclLe)
  {
    forall x, y | KeyLe(ArchiveAclKey(x), ArchiveAclKey(y))
      ensures AclLe(x, y)
    {
      AclOrder(x, y);
    }
    SortInOrder(acl, ArchiveAclKey, AclLe);
  }

  lemma {:induction false} AttachmentsInOrder(attachments: seq<ArchiveAttachment>)
    ensures InOrder(Sort(attachments, ArchiveAttachmentKey), AttachmentLe)
  {
    forall x, y | KeyLe(ArchiveAttachmentKey(x), ArchiveAttachmentKey(y))
      ensures AttachmentLe(x, y)
    {
      OneTextKey(x.attachmentId, y.attachmentId);
    }
    SortInOrder(attachments, ArchiveAttachmentKey, AttachmentLe);
  }

  lemma {:induction false} IdentitiesInOrder(identities: seq<Identity>)
    ensures InOrder(Sort(identities, IdentityKey), IdentityLe)
  {
    forall x, y | KeyLe(IdentityKey(x), IdentityKey(y))
      ensures IdentityLe(x, y)
    {
      IdentityOrder(x, y);
    }
    SortInOrder(identities, IdentityKey, IdentityLe);
  }

  lemma {:induction false} PrincipalsInOrder(principals: seq<ArchivePrincipal>)
    ensures var sorted := CanonicalPrincipals(principals);
            InOrder(sorted, PrincipalLe) && forall p | p in sorted :: InOrder(p.aliases, IdentityLe)
  {
    var nested := Map(SortAliases, principals);
    forall x, y | KeyLe(PrincipalKey(x), PrincipalKey(y))
      ensures PrincipalLe(x, y)
    {
      IdentityOrder(x.primary, y.primary);
    }
    SortInOrder(nested, PrincipalKey, PrincipalLe);
    SortMembers(nested, PrincipalKey);
    forall p | p in Sort(nested, PrincipalKey)
      ensures InOrder(p.aliases, IdentityLe)
    {
      var i := MapIndex(SortAliases, principals, p);
      IdentitiesInOrder(principals[i].aliases);
    }
  }

  lemma {:induction false} TextsInOrder(texts: seq<string>)
    ensures InOrder(Sort(texts, TextKey), TextLe)
  {
    forall x, y | KeyLe(TextKey(x), TextKey(y))
      ensures TextLe(x, y)
    {
      OneTextKey(x, y);
    }
    SortInOrder(texts, TextKey, TextLe);
  }

  lemma {:induction false} RevisionsInOrder(revisions: seq<ArchiveRevision>)
    ensures var sorted := CanonicalRevisions(revisions);
            InOrder(sorted, RevisionLe) && forall e | e in sorted :: InOrder(e.attachmentIds, TextLe)
  {
    var nested := Map(SortIds, revisions);
    forall x, y | KeyLe(ArchiveRevisionKey(x), ArchiveRevisionKey(y))
      ensures RevisionLe(x, y)
    {
      RevisionOrder(x, y);
    }
    SortInOrder(nested, ArchiveRevisionKey, RevisionLe);
    SortMembers(nested, ArchiveRevisionKey);
    forall e | e in Sort(nested, ArchiveRevisionKey)
      ensures InOrder(e.attachmentIds, TextLe)
    {
      var i := MapIndex(SortIds, revisions, e);
      TextsInOrder(revisions[i].attachmentIds);
    }
  }

  // ---------------------------------------------------------------- snapshots

  predicate HistoryLe(a: NoteRevision, b: NoteRevision) {
    TextLess(a.note.noteId, b.note.noteId)
    || (a.note.noteId == b.note.noteId && a.note.revision <= b.note.revision)
  }

  predicate StoredLe(a: StoredAttachment, b: StoredAttachment) {
    TextLe(a.attachmentId, b.attachmentId)
  }

  predicate ReferenceLe(a: AttachmentReference, b: AttachmentReference) {
    || TextLess(a.noteId, b.noteId)
    || (a.noteId == b.noteId
        && (a.revision < b.revision || (a.revision == b.revision && TextLe(a.attachmentId, b.attachmentId))))
  }

  lemma {:induction false} ReferenceOrder(a: AttachmentReference, b: AttachmentReference)
    ensures KeyLe(ReferenceKey(a), ReferenceKey(b)) <==> ReferenceLe(a, b)
  {
    var x, y := [[a.revision], Points(a.attachmentId)], [[b.revision], Points(b.attachmentId)];
    TextFirst(a.noteId, x, b.noteId, y);
    assert ReferenceKey(a) == [Points(a.noteId)] + x && ReferenceKey(b) == [Points(b.noteId)] + y;
    OneTextKey(a.attachmentId, b.attachmentId);
    assert x[1..] == [Points(a.attachmentId)] && y[1..] == [Points(b.attachmentId)];
    assert [a.revision][1..] == [] && [b.revision][1..] == [];
    assert x[0] == y[0] <==> a.revision == b.revision by {
      assert x[0][0] == a.revision && y[0][0] == b.revision;
    }
  }

  // The builders store histories by note and revision, attachments by ID, and references by note, revision and ID.
  lemma {:induction false} SnapshotsAreInOrder(s: Snapshot, revisions: seq<NoteRevision>,
                                               attachments: seq<StoredAttachment>,
                                               references: seq<AttachmentReference>)
    ensures var t := WithNoteRevisions(s, revisions);
            t.Some? ==> InOrder(t.value.revisions, HistoryLe)
    ensures var t := WithAttachments(s, attachments, references);
            t.Some? ==> InOrder(t.value.attachments, StoredLe) && InOrder(t.value.references, ReferenceLe)
  {
    HistoriesInOrder(revisions);
    StoredInOrder(attachments);
    ReferencesInOrder(references);
  }

  lemma {:induction false} StoredInOrder(attachments: seq<StoredAttachment>)
    ensures InOrder(Sort(attachments, AttachmentIdKey), StoredLe)
  {
    forall x, y | KeyLe(AttachmentIdKey(x), AttachmentIdKey(y))
      ensures StoredLe(x, y)
    {
      OneTextKey(x.attachmentId, y.attachmentId);
    }
    SortInOrder(attachments, AttachmentIdKey, StoredLe);
  }

  lemma {:induction false} ReferencesInOrder(references: seq<AttachmentReference>)
    ensures InOrder(Sort(references, ReferenceKey), ReferenceLe)
  {
    forall x, y | KeyLe(ReferenceKey(x), ReferenceKey(y))
      ensures ReferenceLe(x, y)
    {
      ReferenceOrder(x, y);
    }
    SortInOrder(references, ReferenceKey, ReferenceLe);
  }

  lemma {:induction false} HistoriesInOrder(revisions: seq<NoteRevision>)
    ensures InOrder(Sort(revisions, RevisionKey), HistoryLe)
  {
    forall x, y | KeyLe(RevisionKey(x), RevisionKey(y))
      ensures HistoryLe(x, y)
    {
      TextFirst(x.note.noteId, [[x.note.revision]], y.note.noteId, [[y.note.revision]]);
      NumberKey(x.note.revision, y.note.revision);
      assert RevisionKey(x) == [Points(x.note.noteId)] + [[x.note.revision]];
      assert RevisionKey(y) == [Points(y.note.noteId)] + [[y.note.revision]];
    }
    SortInOrder(revisions, RevisionKey, HistoryLe);
  }

  // ---------------------------------------------------------------- restore plans

  predicate LinkLe(a: Link, b: Link) {
    PairLe((a.source, a.target), (b.source, b.target))
  }

  lemma {:induction false} LinksAreInOrder(links: seq<Link>)
    ensures InOrder(Dedup(Sort(links, LinkKey)), LinkLe)
  {
    forall x, y | KeyLe(LinkKey(x), LinkKey(y))
      ensures LinkLe(x, y)
    {
      PairKey((x.source, x.target), (y.source, y.target));
    }
    LinksAreSortedOnce(links);
    SortedInOrder(Dedup(Sort(links, LinkKey)), LinkKey, LinkLe);
  }

  // ---------------------------------------------------------------- documents

  predicate OwnerLe(a: DocumentOwner, b: DocumentOwner) {
    PairLe((a.issuer, a.subject), (b.issuer, b.subject))
  }

  predicate DocumentLe(a: DocumentNote, b: DocumentNote) {
    TextLe(a.noteId, b.noteId)
  }

  predicate ItemLe(a: DocumentItem, b: DocumentItem) {
    TextLe(a.citationKey, b.citationKey)
  }

  lemma {:induction false} MapInOrder<A, B>(f: A -> B, s: seq<A>, leA: (A, A) -> bool, leB: (B, B) -> bool)
    requires InOrder(s, leA) && forall i, j | 0 <= i < j < |s| && leA(s[i], s[j]) :: leB(f(s[i]), f(s[j]))
    ensures InOrder(Map(f, s), leB)
  {
  }

  // In a manifest owners come by issuer and subject, the notes of each by ID, and its items by citation key.
  lemma {:induction false} ManifestIsInOrder(c: Codec, s: Snapshot, items: seq<BibliographyItem>)
    ensures var owners := ExportOf(c, s, items).manifest.owners;
            && InOrder(owners, OwnerLe)
            && forall o | o in owners :: InOrder(o.notes, DocumentLe) && InOrder(o.bibliography, ItemLe)
  {
    var named := Owners(s, items);
    var documents := Map(OwnerDocument(c.env, s, items), named);
    OnceOf(OwnersNamed(s, items));
    forall x, y | KeyLe(IdentityKey(x), IdentityKey(y))
      ensures IdentityLe(x, y)
    {
      IdentityOrder(x, y);
    }
    SortedInOrder(named, IdentityKey, IdentityLe);
    MapInOrder(OwnerDocument(c.env, s, items), named, IdentityLe, OwnerLe);
    forall o | o in documents
      ensures InOrder(o.notes, DocumentLe) && InOrder(o.bibliography, ItemLe)
    {
      var i := MapIndex(OwnerDocument(c.env, s, items), named, o);
      OwnerIsInOrder(c.env, s, items, named[i]);
    }
  }

  lemma {:induction false} OwnerIsInOrder(env: Environment, s: Snapshot, items: seq<BibliographyItem>, o: Identity)
    ensures InOrder(Map(NoteDocument(env, s), NotesOf(s, o)), DocumentLe)
    ensures InOrder(Map(ItemDocument, ItemsOf(items, o)), ItemLe)
  {
    var byId := (x: Note, y: Note) => TextLe(x.noteId, y.noteId);
    var byCitation := (x: BibliographyItem, y: BibliographyItem) => TextLe(x.citationKey, y.citationKey);
    forall x, y | KeyLe(NoteIdKey(x), NoteIdKey(y))
      ensures byId(x, y)
    {
      OneTextKey(x.noteId, y.noteId);
    }
    SortInOrder(Filter(Owned(OwnerOf, o), LiveNotes(s)), NoteIdKey, byId);
    MapInOrder(NoteDocument(env, s), NotesOf(s, o), byId, DocumentLe);
    forall x, y | KeyLe(CitationKey(x), CitationKey(y))
      ensures byCitation(x, y)
    {
      OneTextKey(x.citationKey, y.citationKey);
    }
    SortInOrder(Filter(Owned(ItemOwner, o), items), CitationKey, byCitation);
    MapInOrder(ItemDocument, ItemsOf(items, o), byCitation, ItemLe);
  }
}
