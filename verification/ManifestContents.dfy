// What an exported manifest says about the notes and the items of a snapshot, field by field
// (crates/marginalis-archive/src/documents.rs).
module ManifestContents {
  import opened Options
  import opened Domain
  import opened Sorting
  import opened Snapshots
  import opened SnapshotHistory
  import opened Archives
  import opened ArchiveContents
  import opened Identities
  import opened Bibliographies
  import opened DocumentPaths
  import opened StateHash
  import opened DocumentExports
  import opened DocumentFiles
  import HexCodec

  // ---------------------------------------------------------------- descriptions

  // The entry has the fields of the note.
  ghost predicate DescribesNote(s: Snapshot, o: DocumentOwner, d: DocumentNote, n: Note) {
    && d.noteId == n.noteId && d.title == n.title && d.tags == n.tags
    && d.createdAt == n.createdAt && d.updatedAt == n.updatedAt && d.revision == n.revision
    && d.file == o.directory + "/notes/" + NoteFileName(n.title, n.noteId)
    && d.provenance.createdVia == n.createdVia && DescribesReview(d.provenance.review, n.review)
    && GrantsAre(s, d.acl, n) && AttachmentsAre(s, o, d.attachments, n)
  }

  predicate DescribesReview(f: ReviewFields, review: ReviewTracking) {
    match review
    case Untracked => f == ReviewFields(false, None, None, None, None)
    case Tracked(None) => f == ReviewFields(true, None, None, None, None)
    case Tracked(Some(r)) =>
      f == ReviewFields(true, Some(r.revision), Some(r.reviewedAt), Some(r.reviewer.primary.issuer),
                        Some(r.reviewer.primary.subject))
  }

  // The list holds the grants on the note.
  ghost predicate GrantsAre(s: Snapshot, acl: seq<AclEntry>, n: Note) {
    forall e ::
      e in acl
      <==> exists g | g in s.acl ::
             && g.noteId == n.noteId && e.permission == g.permission
             && e.issuer == g.principal.primary.issuer && e.subject == g.principal.primary.subject
  }

  // The stored attachment is one that the current revision of the note refers to.
  predicate IsCurrent(s: Snapshot, n: Note, a: StoredAttachment) {
    && a in s.attachments
    && exists r | r in s.references ::
         r.noteId == n.noteId && r.revision == n.revision && r.attachmentId == a.attachmentId
  }

  ghost predicate DescribesAttachment(o: DocumentOwner, d: Attachment, a: StoredAttachment) {
    && d.attachmentId == a.attachmentId && d.fileName == a.fileName && d.mediaType == a.mediaType
    && d.byteLength == |a.bytes| && d.sha256 == HexCodec.Encode(a.sha256) && d.createdAtMs == a.createdAt
    && d.createdByIssuer == a.createdBy.primary.issuer && d.createdBySubject == a.createdBy.primary.subject
    && d.file == o.directory + "/attachments/" + AttachmentFileName(a.attachmentId, a.fileName)
  }

  // The list describes the current attachments of the note.
  ghost predicate AttachmentsAre(s: Snapshot, o: DocumentOwner, attachments: seq<Attachment>, n: Note) {
    forall d :: d in attachments <==> exists a | IsCurrent(s, n, a) :: DescribesAttachment(o, d, a)
  }

  predicate DescribesItem(d: DocumentItem, item: BibliographyItem) {
    && d.citationKey == item.citationKey && d.itemId == item.itemId
    && d.createdAt == item.createdAt && d.updatedAt == item.updatedAt && d.revision == item.revision
  }

  // ---------------------------------------------------------------- current attachments

  lemma {:induction false} FoundById(attachments: seq<StoredAttachment>, a: StoredAttachment)
    requires UniqueKeys(attachments, AttachmentIdKey) && a in attachments
    ensures FindAttachment(attachments, a.attachmentId) == Some(a)
  {
    if attachments[0] != a {
      assert a in attachments[1..];
      var j :| 0 <= j < |attachments[1..]| && attachments[1..][j] == a;
      assert AttachmentIdKey(attachments[0]) != AttachmentIdKey(attachments[j + 1]);
      forall i, k | 0 <= i < k < |attachments[1..]|
        ensures AttachmentIdKey(attachments[1..][i]) != AttachmentIdKey(attachments[1..][k])
      {
        assert attachments[1..][i] == attachments[i + 1] && attachments[1..][k] == attachments[k + 1];
      }
      FoundById(attachments[1..], a);
    }
  }

  lemma {:induction false} FoundHasId(attachments: seq<StoredAttachment>, attachmentId: string)
    ensures var found := FindAttachment(attachments, attachmentId);
            found.Some? ==> found.value in attachments && found.value.attachmentId == attachmentId
  {
    if attachments != [] && attachments[0].attachmentId != attachmentId {
      FoundHasId(attachments[1..], attachmentId);
    }
  }

  lemma {:induction false} FoundAre(attachments: seq<StoredAttachment>, references: seq<AttachmentReference>,
                                    a: StoredAttachment)
    requires UniqueKeys(attachments, AttachmentIdKey)
    ensures a in Found(attachments, references)
            <==> a in attachments && exists r | r in references :: r.attachmentId == a.attachmentId
  {
    if references != [] {
      var rest := references[1..];
      FoundAre(attachments, rest, a);
      FoundHasId(attachments, references[0].attachmentId);
      if a in attachments && references[0].attachmentId == a.attachmentId {
        FoundById(attachments, a);
      }
      assert forall r :: r in references <==> r == references[0] || r in rest;
    }
  }

  lemma {:induction false} CurrentAre(s: Snapshot, n: Note, a: StoredAttachment)
    requires Covered(s)
    ensures a in CurrentAttachments(s, n) <==> IsCurrent(s, n, a)
  {
    var named := Filter(RefersToRevision(n.noteId, n.revision), s.references);
    FilterMembers(RefersToRevision(n.noteId, n.revision), s.references);
    FoundAre(s.attachments, named, a);
    assert (exists r | r in named :: r.attachmentId == a.attachmentId)
           <==> (exists r | r in s.references ::
                   r.noteId == n.noteId && r.revision == n.revision && r.attachmentId == a.attachmentId);
  }

  // ---------------------------------------------------------------- notes

  lemma {:induction false} GrantsAreListed(s: Snapshot, n: Note)
    ensures GrantsAre(s, DocumentAcls(s, n), n)
  {
    var granted := Filter(GrantsOn(n.noteId), s.acl);
    FilterMembers(GrantsOn(n.noteId), s.acl);
    forall e
      ensures e in DocumentAcls(s, n)
              <==> exists g | g in s.acl ::
                     && g.noteId == n.noteId && e.permission == g.permission
                     && e.issuer == g.principal.primary.issuer && e.subject == g.principal.primary.subject
    {
      if e in DocumentAcls(s, n) {
        var i := MapIndex(DocumentAcl, granted, e);
        assert granted[i] in granted;
      }
      forall g | g in s.acl && g.noteId == n.noteId && e == DocumentAcl(g)
        ensures e in DocumentAcls(s, n)
      {
        var i :| 0 <= i < |granted| && granted[i] == g;
        assert Map(DocumentAcl, granted)[i] == e;
      }
    }
  }

  lemma {:induction false} AttachmentsAreListed(s: Snapshot, o: DocumentOwner, n: Note)
    requires Covered(s) && o.directory == DirectoryOf(n.owner.primary)
    ensures AttachmentsAre(s, o, DocumentAttachments(s, n), n)
  {
    var current, document := CurrentAttachments(s, n), AttachmentDocument(o.directory);
    forall d
      ensures d in DocumentAttachments(s, n) <==> exists a | IsCurrent(s, n, a) :: DescribesAttachment(o, d, a)
    {
      InMap(document, current, d);
      forall a
        ensures a in current <==> IsCurrent(s, n, a)
        ensures document(a) == d <==> DescribesAttachment(o, d, a)
      {
        CurrentAre(s, n, a);
        AttachmentIsDescribed(o, d, a);
      }
    }
  }

  lemma {:induction false} AttachmentIsDescribed(o: DocumentOwner, d: Attachment, a: StoredAttachment)
    ensures AttachmentDocument(o.directory)(a) == d <==> DescribesAttachment(o, d, a)
  {
  }

  lemma {:induction false} NoteIsDescribed(env: Environment, s: Snapshot, o: DocumentOwner, n: Note)
    requires Covered(s) && o.directory == DirectoryOf(n.owner.primary)
    ensures DescribesNote(s, o, NoteDocument(env, s)(n), n)
  {
    GrantsAreListed(s, n);
    AttachmentsAreListed(s, o, n);
  }

  // A live note of the owner, described by the entry.
  ghost predicate IsEntryOf(s: Snapshot, o: DocumentOwner, d: DocumentNote, n: Note) {
    && n in s.notes && n.deletedAt.None?
    && o.issuer == n.owner.primary.issuer && o.subject == n.owner.primary.subject
    && DescribesNote(s, o, d, n)
  }

  lemma {:induction false} NotesOfAre(s: Snapshot, owner: Identity, n: Note)
    ensures n in NotesOf(s, owner) <==> n in s.notes && n.deletedAt.None? && n.owner.primary == owner
  {
    InFilter(IsLive, s.notes, n);
    InFilter(Owned(OwnerOf, owner), LiveNotes(s), n);
    var owned := Filter(Owned(OwnerOf, owner), LiveNotes(s));
    SortMembers(owned, NoteIdKey);
    assert n in NotesOf(s, owner) <==> n in owned;
    assert n in owned <==> n in LiveNotes(s) && OwnerOf(n) == owner;
    assert IsLive(n) <==> n.deletedAt.None?;
  }

  lemma {:induction false} InFilter<T>(p: T -> bool, s: seq<T>, x: T)
    ensures x in Filter(p, s) <==> x in s && p(x)
  {
    FilterMembers(p, s);
  }

  lemma {:induction false} EntryOfNote(env: Environment, s: Snapshot, items: seq<BibliographyItem>, owner: Identity,
                                       n: Note)
    requires Covered(s) && n in NotesOf(s, owner)
    ensures IsEntryOf(s, OwnerDocument(env, s, items)(owner), NoteDocument(env, s)(n), n)
  {
    NotesOfAre(s, owner, n);
    NoteIsDescribed(env, s, OwnerDocument(env, s, items)(owner), n);
  }

  // Every live note is described under its owner.
  lemma {:induction false} ManifestHasEachNote(c: Codec, s: Snapshot, items: seq<BibliographyItem>, n: Note)
    requires Covered(s) && n in s.notes && n.deletedAt.None?
    ensures exists o, d :: o in ExportOf(c, s, items).manifest.owners && d in o.notes && IsEntryOf(s, o, d, n)
  {
    var owner := n.owner.primary;
    InFilter(IsLive, s.notes, n);
    assert OwnerOf(n) == owner;
    OwnerIsListed(c, s, items, owner);
    NotesOfAre(s, owner, n);
    InMap(NoteDocument(c.env, s), NotesOf(s, owner), NoteDocument(c.env, s)(n));
    EntryOfNote(c.env, s, items, owner, n);
    var o := OwnerDocument(c.env, s, items)(owner);
    OwnerDocumentIs(c.env, s, items, owner);
    assert NoteDocument(c.env, s)(n) in o.notes;
  }

  lemma {:induction false} OwnerIsListed(c: Codec, s: Snapshot, items: seq<BibliographyItem>, owner: Identity)
    requires || (exists n | n in LiveNotes(s) :: OwnerOf(n) == owner)
             || (exists item | item in items :: ItemOwner(item) == owner)
    ensures OwnerDocument(c.env, s, items)(owner) in ExportOf(c, s, items).manifest.owners
  {
    OwnerIsNamed(s, items, owner);
    var owners := Owners(s, items);
    var i :| 0 <= i < |owners| && owners[i] == owner;
    assert Map(OwnerDocument(c.env, s, items), owners)[i] == OwnerDocument(c.env, s, items)(owner);
  }

  lemma {:induction false} OwnerIsNamed(s: Snapshot, items: seq<BibliographyItem>, owner: Identity)
    ensures owner in Owners(s, items)
            <==> || (exists n | n in LiveNotes(s) :: OwnerOf(n) == owner)
                 || (exists item | item in items :: ItemOwner(item) == owner)
  {
    OnceOf(OwnersNamed(s, items));
    InMap(OwnerOf, LiveNotes(s), owner);
    InMap(ItemOwner, items, owner);
  }

  lemma {:induction false} InMap<T, B>(f: T -> B, s: seq<T>, y: B)
    ensures y in Map(f, s) <==> exists x | x in s :: f(x) == y
  {
    if y in Map(f, s) {
      var i := MapIndex(f, s, y);
      assert s[i] in s;
    }
    forall x | x in s && f(x) == y
      ensures y in Map(f, s)
    {
      var i :| 0 <= i < |s| && s[i] == x;
      assert Map(f, s)[i] == y;
    }
  }

  // Every entry of the manifest describes a live note of its owner.
  lemma {:induction false} ManifestHasOnlyNotes(c: Codec, s: Snapshot, items: seq<BibliographyItem>, o: DocumentOwner,
                                                d: DocumentNote)
    requires Covered(s) && o in ExportOf(c, s, items).manifest.owners && d in o.notes
    ensures exists n :: IsEntryOf(s, o, d, n)
  {
    var k := MapIndex(OwnerDocument(c.env, s, items), Owners(s, items), o);
    var owner := Owners(s, items)[k];
    OwnerDocumentIs(c.env, s, items, owner);
    InMap(NoteDocument(c.env, s), NotesOf(s, owner), d);
    var n :| n in NotesOf(s, owner) && NoteDocument(c.env, s)(n) == d;
    EntryOfNote(c.env, s, items, owner, n);
  }

  // No two entries describe the same note.
  lemma {:induction false} ManifestRepeatsNoNote(c: Codec, s: Snapshot, items: seq<BibliographyItem>, o: DocumentOwner)
    requires NotesOk(s.notes) && o in ExportOf(c, s, items).manifest.owners
    ensures forall i, j | 0 <= i < j < |o.notes| :: o.notes[i].noteId != o.notes[j].noteId
  {
    var k := MapIndex(OwnerDocument(c.env, s, items), Owners(s, items), o);
    var owner := Owners(s, items)[k];
    OwnerDocumentIs(c.env, s, items, owner);
    var notes := NotesOf(s, owner);
    NotesOfOwnerAreDistinct(s, owner);
    forall i, j | 0 <= i < j < |o.notes|
      ensures o.notes[i].noteId != o.notes[j].noteId
    {
      NotesOfAre(s, owner, notes[i]);
      NotesOfAre(s, owner, notes[j]);
      if notes[i].noteId == notes[j].noteId {
        NoteById(s, notes[i], notes[j]);
      }
    }
  }

  // ---------------------------------------------------------------- items

  // The items that a manifest lists under an owner are those of that owner.
  lemma {:induction false} ManifestHasItems(c: Codec, s: Snapshot, items: seq<BibliographyItem>, d: DocumentItem,
                                            owner: Identity)
    ensures (exists o | o in ExportOf(c, s, items).manifest.owners ::
               o.issuer == owner.issuer && o.subject == owner.subject && d in o.bibliography)
       <==> exists item | item in items :: item.owner.primary == owner && DescribesItem(d, item)
  {
    FilterMembers(Owned(ItemOwner, owner), items);
    SortMembers(Filter(Owned(ItemOwner, owner), items), CitationKey);
    InMap(ItemDocument, ItemsOf(items, owner), d);
    var owners := ExportOf(c, s, items).manifest.owners;
    forall o | o in owners && o.issuer == owner.issuer && o.subject == owner.subject
      ensures o == OwnerDocument(c.env, s, items)(owner)
    {
      var k := MapIndex(OwnerDocument(c.env, s, items), Owners(s, items), o);
      assert Owners(s, items)[k] == owner;
    }
    forall item | item in items && item.owner.primary == owner && DescribesItem(d, item)
      ensures OwnerDocument(c.env, s, items)(owner) in owners && d == ItemDocument(item)
    {
      OwnerIsListed(c, s, items, owner);
    }
  }
}
