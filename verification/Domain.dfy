// The records of the domain that snapshots and archives hold (crates/marginalis-domain/src/model).
// IDs are kept in their printed form; instants are milliseconds in a signed 64-bit integer.
module Domain {
  import opened Options
  import opened Unicode

  type I64 = x: int | -0x8000_0000_0000_0000 <= x < 0x8000_0000_0000_0000

  type Revision = r: int | 1 <= r < 0x8000_0000_0000_0000 witness 1

  datatype Identity = Identity(issuer: string, subject: string)

  // Two references are equal for the source when their IDs are.
  datatype PrincipalRef = PrincipalRef(id: int, primary: Identity)

  datatype Principal = Principal(id: int, primary: Identity, identities: seq<Identity>)

  datatype Permission = Read | Edit

  datatype MediaType = Png | Jpeg | WebP {
    function Name(): string {
      match this
      case Png => "image/png"
      case Jpeg => "image/jpeg"
      case WebP => "image/webp"
    }
  }

  datatype CreationSource = Web | Rest | Mcp | UnknownSource

  datatype RevisionKind =
    | Created | ContentUpdated | AclUpdated | ReviewedKind | Deleted | Restored | HistoryRestored | Imported

  datatype ReviewRecord = ReviewRecord(revision: Revision, reviewedAt: I64, reviewer: PrincipalRef)

  datatype ReviewTracking = Untracked | Tracked(last: Option<ReviewRecord>)

  datatype ReviewStatus = Unknown | Pending | Reviewed

  datatype Note = Note(
    noteId: string, owner: PrincipalRef, title: string, source: string, tags: seq<string>,
    createdAt: I64, updatedAt: I64, revision: Revision, deletedAt: Option<I64>,
    createdVia: CreationSource, review: ReviewTracking)

  datatype NoteRevision = NoteRevision(note: Note, changedBy: PrincipalRef, kind: RevisionKind)

  datatype NoteAcl = NoteAcl(noteId: string, principal: PrincipalRef, permission: Permission)

  datatype StoredAttachment = StoredAttachment(
    attachmentId: string, noteId: string, fileName: string, mediaType: MediaType,
    sha256: seq<Byte>, createdAt: I64, createdBy: PrincipalRef, bytes: seq<Byte>)

  datatype AttachmentReference = AttachmentReference(noteId: string, revision: Revision, attachmentId: string)

  // ---------------------------------------------------------------- construction

  predicate DistinctIdentities(identities: seq<Identity>) {
    forall i, j | 0 <= i < j < |identities| :: identities[i] != identities[j]
  }

  // What every constructor of a principal checks.
  predicate ValidPrincipal(p: Principal) {
    p.primary in p.identities && DistinctIdentities(p.identities)
  }

  function Single(reference: PrincipalRef): (p: Principal)
    ensures ValidPrincipal(p) && p.id == reference.id
  {
    Principal(reference.id, reference.primary, [reference.primary])
  }

  function LastReview(review: ReviewTracking): Option<ReviewRecord> {
    if review.Tracked? then review.last else None
  }

  // What `Note::restore` checks.
  predicate ValidNote(n: Note) {
    && n.createdAt <= n.updatedAt
    && (n.deletedAt.Some? ==> n.createdAt <= n.deletedAt.value <= n.updatedAt)
    && (LastReview(n.review).Some? ==>
          var r := LastReview(n.review).value;
          r.revision <= n.revision && n.createdAt <= r.reviewedAt <= n.updatedAt && r.reviewer.id == n.owner.id)
  }

  function ReviewStatusOf(review: ReviewTracking, current: Revision): ReviewStatus {
    if review.Untracked? then Unknown
    else if review.last.Some? && review.last.value.revision == current then Reviewed
    else Pending
  }

  // ---------------------------------------------------------------- equality of the source

  function Anonymous(r: PrincipalRef): PrincipalRef {
    PrincipalRef(r.id, Identity("", ""))
  }

  // Two notes are equal for the source when they are the same up to the identities of principals.
  function ById(n: Note): Note {
    n.(owner := Anonymous(n.owner),
       review := if LastReview(n.review).Some?
                 then Tracked(Some(n.review.last.value.(reviewer := Anonymous(n.review.last.value.reviewer))))
                 else n.review)
  }
}
