// Exactly which records of an archive are read, and as what (`validate_archive_contents` in
// crates/marginalis-archive/src/archive.rs).
module RecordReading {
  import opened Options
  import opened Domain
  import opened Unicode
  import opened Sorting
  import opened Principals
  import opened Archives
  import opened ArchiveContents
  import opened ArchiveReading
  import opened Snapshots
  import opened SnapshotAcceptance
  import opened TextOrder
  import HexCodec

  // ---------------------------------------------------------------- principals

  // A valid identity that is the primary one of a declared principal.
  predicate NamesPrincipal(env: Environment, principals: seq<Principal>, identity: Identity, r: PrincipalRef) {
    && env.validIdentity(identity) && r.primary == identity
    && exists p | p in principals :: p.id == r.id && p.primary == identity
  }

  lemma {:induction false} PrimaryFound(principals: seq<Principal>, identity: Identity, r: PrincipalRef)
    requires Declared(principals)
    ensures FindPrimary(principals, identity) == Some(r)
            <==> r.primary == identity && exists p | p in principals :: p.id == r.id && p.primary == identity
  {
    var found := FindPrimary(principals, identity);
    if found.Some? {
      PrimaryIsThere(principals, identity);
    }
    forall p | p in principals && p.id == r.id && p.primary == identity
      ensures found == Some(PrincipalRef(p.id, identity))
    {
      PrimaryIsFound(principals, p);
    }
  }

  lemma {:induction false} PrimaryIsThere(principals: seq<Principal>, identity: Identity)
    requires FindPrimary(principals, identity).Some?
    ensures var r := FindPrimary(principals, identity).value;
            r.primary == identity && exists p | p in principals :: p.id == r.id && p.primary == identity
  {
    if principals[0].primary == identity {
      assert principals[0] in principals;
    } else {
      PrimaryIsThere(principals[1..], identity);
    }
  }

  lemma {:induction false} PrimaryIsFound(principals: seq<Principal>, p: Principal)
    requires Declared(principals) && p in principals
    ensures FindPrimary(principals, p.primary) == Some(PrincipalRef(p.id, p.primary))
  {
    if principals[0].primary != p.primary {
      DeclaredRest(principals);
      PrimaryIsFound(principals[1..], p);
    } else {
      var i :| 0 <= i < |principals| && principals[i] == p;
      assert ValidPrincipal(principals[0]) && ValidPrincipal(principals[i]);
      OwnerIsUnique(principals, 0, i, p.primary);
    }
  }

  lemma {:induction false} DeclaredRest(principals: seq<Principal>)
    requires Declared(principals) && principals != []
    ensures Declared(principals[1..])
  {
    var rest := principals[1..];
    forall i | 0 <= i < |rest|
      ensures ValidPrincipal(rest[i]) && PrincipalOk(rest, i)
    {
      assert ValidPrincipal(principals[i + 1]) && PrincipalOk(principals, i + 1);
      assert forall j | 0 <= j < i :: rest[j] == principals[j + 1];
    }
  }

  lemma {:induction false} RefOfIs(env: Environment, principals: seq<Principal>, identity: Identity, r: PrincipalRef)
    requires Declared(principals)
    ensures RefOf(env, principals, identity) == Some(r) <==> NamesPrincipal(env, principals, identity, r)
  {
    PrimaryFound(principals, identity, r);
  }

  // ---------------------------------------------------------------- access lists

  lemma {:induction false} AclReadsAs(env: Environment, principals: seq<Principal>, e: ArchiveAcl, g: NoteAcl)
    requires Declared(principals)
    ensures ReadAcl(env, principals, e) == Some(g)
            <==> && env.parseId(e.noteId) == Some(g.noteId) && g.permission == e.permission
                 && NamesPrincipal(env, principals, e.identity, g.principal)
  {
    RefOfIs(env, principals, e.identity, g.principal);
  }

  // ---------------------------------------------------------------- notes

  // The five fields of a review. A review names the owner, and is complete or absent.
  predicate ReviewReadsAs(env: Environment, principals: seq<Principal>, owner: PrincipalRef, f: ReviewFields,
                          review: ReviewTracking) {
    match review
    case Untracked => f == ReviewFields(false, None, None, None, None)
    case Tracked(None) => f == ReviewFields(true, None, None, None, None)
    case Tracked(Some(r)) =>
      && f == ReviewFields(true, Some(r.revision), Some(r.reviewedAt), Some(r.reviewer.primary.issuer),
                           Some(r.reviewer.primary.subject))
      && NamesPrincipal(env, principals, r.reviewer.primary, r.reviewer) && r.reviewer.id == owner.id
  }

  lemma {:induction false} ReviewReads(env: Environment, principals: seq<Principal>, owner: PrincipalRef,
                                       f: ReviewFields, review: ReviewTracking)
    requires Declared(principals)
    ensures ReadReview(env, principals, owner, f) == Some(review)
            <==> ReviewReadsAs(env, principals, owner, f, review)
  {
    if f.issuer.Some? && f.subject.Some? {
      var identity := Identity(f.issuer.value, f.subject.value);
      forall r
        ensures RefOf(env, principals, identity) == Some(r) <==> NamesPrincipal(env, principals, identity, r)
      {
        RefOfIs(env, principals, identity, r);
      }
    }
    if review.Tracked? && review.last.Some? {
      var r := review.last.value.reviewer;
      RefOfIs(env, principals, r.primary, r);
      assert Identity(r.primary.issuer, r.primary.subject) == r.primary;
    }
  }

  // The times of a record and of its review are in order.
  predicate TimesFit(m: Note) {
    && m.createdAt <= m.updatedAt
    && (m.deletedAt.Some? ==> m.createdAt <= m.deletedAt.value && m.deletedAt.value <= m.updatedAt)
    && (m.review.Tracked? && m.review.last.Some? ==>
          && m.review.last.value.revision <= m.revision
          && m.createdAt <= m.review.last.value.reviewedAt && m.review.last.value.reviewedAt <= m.updatedAt)
  }

  // The note that an entry is read as: its own fields, and title and tags of its source. Without provenance its
  // origin is unknown and its reviews are not tracked.
  predicate NoteReadsAs(env: Environment, principals: seq<Principal>, n: ArchiveNote, m: Note) {
    && env.parseId(n.noteId) == Some(m.noteId) && NamesPrincipal(env, principals, n.creator, m.owner)
    && env.validate(n.source).Some? && m.source == n.source
    && m.title == env.validate(n.source).value.title && m.tags == env.validate(n.source).value.tags
    && m.createdAt == n.createdAt && m.updatedAt == n.updatedAt && m.deletedAt == n.deletedAt
    && m.revision == n.revision
    && (match n.provenance
        case None => m.createdVia == UnknownSource && m.review == Untracked
        case Some(p) =>
          m.createdVia == p.createdVia && ReviewReadsAs(env, principals, m.owner, p.review, m.review))
    && TimesFit(m)
  }

  lemma {:induction false} NoteReads(env: Environment, principals: seq<Principal>, n: ArchiveNote, m: Note)
    requires Declared(principals)
    ensures ReadNote(env, principals, n) == Some(m) <==> NoteReadsAs(env, principals, n, m)
  {
    RefOfIs(env, principals, n.creator, m.owner);
    if n.provenance.Some? {
      ReviewReads(env, principals, m.owner, n.provenance.value.review, m.review);
    }
  }

  // ---------------------------------------------------------------- histories

  // A revision is read against the current note, whose owner, creation and origin it shares.
  predicate RevisionReadsAs(env: Environment, principals: seq<Principal>, notes: seq<Note>, e: ArchiveRevision,
                            r: NoteRevision) {
    && env.parseId(e.noteId) == Some(r.note.noteId) && NamesPrincipal(env, principals, e.changedBy, r.changedBy)
    && r.kind == e.kind
    && env.validate(e.source).Some? && r.note.source == e.source
    && r.note.title == env.validate(e.source).value.title && r.note.tags == env.validate(e.source).value.tags
    && r.note.updatedAt == e.changedAt && r.note.deletedAt == e.deletedAt && r.note.revision == e.revision
    && (exists n | n in notes ::
          && n.noteId == r.note.noteId && r.note.owner == n.owner && r.note.createdAt == n.createdAt
          && r.note.createdVia == n.createdVia)
    && ReviewReadsAs(env, principals, r.note.owner, e.review, r.note.review)
    && TimesFit(r.note)
  }

  lemma {:induction false} RevisionReads(env: Environment, principals: seq<Principal>, notes: seq<Note>,
                                         e: ArchiveRevision, r: NoteRevision)
    requires Declared(principals) && NotesOk(notes)
    ensures ReadRevision(env, principals, notes, e) == Some(r) <==> RevisionReadsAs(env, principals, notes, e, r)
  {
    RefOfIs(env, principals, e.changedBy, r.changedBy);
    CurrentIs(notes, r.note.noteId);
    var current := CurrentNote(notes, r.note.noteId);
    if current.Some? {
      ReviewReads(env, principals, current.value.owner, e.review, r.note.review);
    }
  }

  lemma {:induction false} CurrentIs(notes: seq<Note>, noteId: string)
    requires NotesOk(notes)
    ensures var current := CurrentNote(notes, noteId);
            && (current.Some? ==> current.value in notes && current.value.noteId == noteId)
            && forall n | n in notes && n.noteId == noteId :: current == Some(n)
  {
    forall n
      ensures CurrentNote(notes, noteId) == Some(n) <==> n in notes && n.noteId == noteId
    {
      CurrentNoteIs(notes, noteId, n);
    }
  }

  // ---------------------------------------------------------------- attachments

  // The fields of an attachment, whose bytes have the size, the format and the digest that the entry gives. Its
  // name is normalized, and a possible file name.
  predicate AttachmentReadsAs(env: Environment, principals: seq<Principal>, a: ArchiveAttachment,
                              s: StoredAttachment) {
    && env.parseId(a.attachmentId) == Some(s.attachmentId) && env.parseId(a.noteId) == Some(s.noteId)
    && NamesPrincipal(env, principals, a.createdBy, s.createdBy)
    && s.createdAt == a.createdAt && s.mediaType == a.mediaType
    && s.fileName == env.trimmedNfc(a.fileName) && CanNameFile(s.fileName)
    && env.decode64(a.contentBase64) == Some(s.bytes) && |s.bytes| == a.byteLength
    && 0 < a.byteLength && a.byteLength <= 8388608
    && HexCodec.Decode(a.sha256) == Some(s.sha256) && env.digest(s.bytes) == s.sha256
    && env.detect(s.bytes) == Some(a.mediaType)
  }

  // One to 200 characters, neither of the two dot names, without control characters and slashes of either kind.
  predicate CanNameFile(name: string) {
    && 0 < |name| && |name| <= 200 && name != "." && name != ".."
    && forall c | c in name :: !IsControl(c) && c != '/' && c != '\\'
  }

  lemma {:induction false} ValidNamesAre(name: string)
    ensures ValidFileName(name) <==> CanNameFile(name)
  {
    assert forall i | 0 <= i < |name| :: name[i] in name;
  }

  lemma {:induction false} AttachmentReads(env: Environment, principals: seq<Principal>, a: ArchiveAttachment,
                                           s: StoredAttachment)
    requires Declared(principals)
    ensures ReadAttachment(env, principals, a) == Some(s) <==> AttachmentReadsAs(env, principals, a, s)
  {
    RefOfIs(env, principals, a.createdBy, s.createdBy);
    ValidNamesAre(env.trimmedNfc(a.fileName));
  }

  // ---------------------------------------------------------------- references

  // An entry lists each attachment that its source uses, once and no others.
  ghost predicate ListsUses(env: Environment, e: ArchiveRevision) {
    && env.validate(e.source).Some?
    && (forall id :: id in e.attachmentIds <==> id in env.validate(e.source).value.attachmentIds)
    && forall i, j | 0 <= i < j < |e.attachmentIds| :: e.attachmentIds[i] != e.attachmentIds[j]
  }

  lemma {:induction false} SortedNeighbours(s: seq<string>)
    requires IsSorted(s, TextKey) && NoneAdjacent(s)
    ensures UniqueKeys(s, TextKey)
  {
    forall i, j | 0 <= i < j < |s|
      ensures TextKey(s[i]) != TextKey(s[j])
    {
      TextKeysIdentify(s[i], s[i + 1]);
      TextKeysIdentify(s[i], s[j]);
      SortedAt(s, TextKey, i, i + 1);
      if j > i + 1 {
        SortedAt(s, TextKey, i + 1, j);
        KeyLeTotal(TextKey(s[i]), TextKey(s[i + 1]));
        TextKeysIdentify(s[i + 1], s[j]);
      }
    }
  }

  lemma {:induction false} IdsMatchMeans(draft: Draft, ids: seq<string>)
    ensures IdsMatch(draft, ids)
            <==> && (forall id :: id in ids <==> id in draft.attachmentIds)
                 && forall i, j | 0 <= i < j < |ids| :: ids[i] != ids[j]
  {
    var declared, uses := Sort(ids, TextKey), Sort(draft.attachmentIds, TextKey);
    SortSorts(ids, TextKey);
    SortMembers(ids, TextKey);
    SortSorts(draft.attachmentIds, TextKey);
    SortMembers(draft.attachmentIds, TextKey);
    DedupMembers(uses);
    forall x, y | x in uses && y in uses && TextKey(x) == TextKey(y)
      ensures x == y
    {
      TextKeysIdentify(x, y);
    }
    DedupOfSorted(uses, TextKey);
    UniqueKeysOfSort(ids, TextKey);
    if IdsMatch(draft, ids) {
      SortedNeighbours(declared);
    }
    if forall i, j | 0 <= i < j < |ids| :: ids[i] != ids[j] {
      UniqueTexts(ids);
      NeighboursDiffer(declared);
      if forall id :: id in ids <==> id in draft.attachmentIds {
        SortedSetsAreEqual(declared, Dedup(uses), TextKey);
      }
    }
  }

  lemma {:induction false} UniqueTexts(ids: seq<string>)
    requires forall i, j | 0 <= i < j < |ids| :: ids[i] != ids[j]
    ensures UniqueKeys(ids, TextKey)
  {
    forall i, j | 0 <= i < j < |ids|
      ensures TextKey(ids[i]) != TextKey(ids[j])
    {
      TextKeysIdentify(ids[i], ids[j]);
    }
  }

  lemma {:induction false} NeighboursDiffer(s: seq<string>)
    requires UniqueKeys(s, TextKey)
    ensures NoneAdjacent(s)
  {
    forall i | 0 <= i < |s| - 1
      ensures s[i] != s[i + 1]
    {
      var next := i + 1;
      assert TextKey(s[i]) != TextKey(s[next]);
    }
  }

  // The references of an entry: one for each listed attachment, in the order of the list.
  ghost predicate ReferencesReadAs(env: Environment, e: ArchiveRevision, references: seq<AttachmentReference>) {
    && ListsUses(env, e) && e.revision >= 1 && env.parseId(e.noteId).Some?
    && |references| == |e.attachmentIds|
    && forall i | 0 <= i < |references| ::
         && env.parseId(e.attachmentIds[i]) == Some(references[i].attachmentId)
         && env.parseId(e.noteId) == Some(references[i].noteId) && references[i].revision == e.revision
  }

  lemma {:induction false} ReferencesRead(env: Environment, e: ArchiveRevision, references: seq<AttachmentReference>)
    ensures ReadReferences(env, e) == Some(references) <==> ReferencesReadAs(env, e, references)
  {
    if env.validate(e.source).Some? {
      IdsMatchMeans(env.validate(e.source).value, e.attachmentIds);
    }
    if env.parseId(e.noteId).Some? && e.revision >= 1 {
      var reference := ReferenceTo(env.parseId(e.noteId).value, e.revision);
      if ReferencesReadAs(env, e, references) {
        var ids := Map((r: AttachmentReference) => r.attachmentId, references);
        TraverseAll(env.parseId, e.attachmentIds, ids);
        assert Map(reference, ids) == references;
      }
      if ReadReferences(env, e) == Some(references) {
        TraverseLength(env.parseId, e.attachmentIds);
        forall i | 0 <= i < |references|
          ensures env.parseId(e.attachmentIds[i]) == Some(references[i].attachmentId)
        {
          TraverseAt(env.parseId, e.attachmentIds, i);
        }
      }
    }
  }
}
