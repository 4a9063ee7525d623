// Reading an archive into a snapshot and writing a snapshot as an archive (`validate_archive_contents`,
// `create_archive`, `validate_archive` and `migrate_previous_archive` in
// crates/marginalis-archive/src/archive.rs).
module ArchiveContents {
  import opened Options
  import opened Domain
  import opened Unicode
  import opened Sequences
  import opened Sorting
  import opened Snapshots
  import opened Archives
  import HexCodec

  const ARCHIVE_FORMAT := "marginalis-archive-18"

  const ARCHIVE_NOTE_PROFILE_VERSION := 6

  // The contract that the preceding release wrote.
  const PREVIOUS_FORMAT := "marginalis-archive-18"

  const PREVIOUS_PACKAGE_VERSION := "0.47.0"

  const PREVIOUS_PROFILE_VERSION := 6

  const MAX_ATTACHMENT_BYTES := 8 * 1024 * 1024

  const MAX_FILE_NAME_CHARACTERS := 200

  // What the note parser derives from a source. Attachment IDs come in the order of their uses.
  datatype Draft = Draft(title: string, tags: seq<string>, attachmentIds: seq<string>)

  // Functions that the archive relies on: the note parser, the parsers of IDs and identities, Unicode
  // normalization, Base64, SHA-256 and the detection of image formats. `parseId` yields the printed form.
  datatype Environment = Environment(
    packageVersion: string,
    parseId: string -> Option<string>,
    validIdentity: Identity -> bool,
    validate: string -> Option<Draft>,
    trimmedNfc: string -> string,
    encode64: seq<Byte> -> string,
    decode64: string -> Option<seq<Byte>>,
    digest: seq<Byte> -> seq<Byte>,
    detect: seq<Byte> -> Option<MediaType>)

  // What is assumed of them: printed IDs parse to themselves, normalizing twice is normalizing once, and
  // Base64 texts that decode are what encoding writes.
  ghost predicate Lawful(env: Environment) {
    && (forall id :: env.parseId(id).Some? ==> env.parseId(env.parseId(id).value) == env.parseId(id))
    && (forall source :: env.validate(source).Some? ==> PrintedIds(env, env.validate(source).value.attachmentIds))
    && (forall name :: env.trimmedNfc(env.trimmedNfc(name)) == env.trimmedNfc(name))
    && (forall text :: env.decode64(text).Some? ==> env.encode64(env.decode64(text).value) == text)
    && (forall bytes :: env.decode64(env.encode64(bytes)) == Some(bytes))
  }

  predicate PrintedIds(env: Environment, ids: seq<string>) {
    forall i | 0 <= i < |ids| :: env.parseId(ids[i]) == Some(ids[i])
  }

  function Traverse<A, B>(f: A -> Option<B>, s: seq<A>): Option<seq<B>> {
    if s == [] then Some([])
    else
      var first, rest := f(s[0]), Traverse(f, s[1..]);
      if first.Some? && rest.Some? then Some([first.value] + rest.value) else None
  }

  // ---------------------------------------------------------------- principals

  function IdentitiesOf(p: ArchivePrincipal): seq<Identity> { [p.primary] + p.aliases }

  function AllIdentities(entries: seq<ArchivePrincipal>): seq<Identity> {
    if entries == [] then [] else IdentitiesOf(entries[0]) + AllIdentities(entries[1..])
  }

  predicate EntryOk(env: Environment, p: ArchivePrincipal) {
    forall i | 0 <= i < |IdentitiesOf(p)| :: env.validIdentity(IdentitiesOf(p)[i])
  }

  // All identities are valid, and none is declared twice.
  predicate EntriesOk(env: Environment, entries: seq<ArchivePrincipal>) {
    EntriesValid(env, entries) && DistinctIdentities(AllIdentities(entries))
  }

  predicate EntriesValid(env: Environment, entries: seq<ArchivePrincipal>) {
    forall i | 0 <= i < |entries| :: EntryOk(env, entries[i])
  }

  function Numbered(entries: seq<ArchivePrincipal>): seq<Principal> {
    seq(|entries|, i requires 0 <= i < |entries| => Principal(i + 1, entries[i].primary, IdentitiesOf(entries[i])))
  }

  // IDs count the principals in the order of their primary identities.
  function DeclaredPrincipals(env: Environment, entries: seq<ArchivePrincipal>): Option<seq<Principal>> {
    if EntriesOk(env, entries) then Some(Numbered(Sort(entries, PrincipalKey))) else None
  }

  // Only primary identities can be referred to.
  function FindPrimary(principals: seq<Principal>, identity: Identity): Option<PrincipalRef> {
    if principals == [] then None
    else if principals[0].primary == identity then Some(PrincipalRef(principals[0].id, identity))
    else FindPrimary(principals[1..], identity)
  }

  function RefOf(env: Environment, principals: seq<Principal>, identity: Identity): Option<PrincipalRef> {
    if env.validIdentity(identity) then FindPrimary(principals, identity) else None
  }

  // ---------------------------------------------------------------- reading records

  function RevisionOf(n: I64): Option<Revision> {
    if n >= 1 then Some(n) else None
  }

  function ReadReview(env: Environment, principals: seq<Principal>, owner: PrincipalRef,
                      f: ReviewFields): Option<ReviewTracking> {
    if f.revision.None? && f.reviewedAt.None? && f.issuer.None? && f.subject.None? then
      Some(if f.trackingKnown then Tracked(None) else Untracked)
    else if f.trackingKnown && f.revision.Some? && f.reviewedAt.Some? && f.issuer.Some? && f.subject.Some? then
      var reviewer := RefOf(env, principals, Identity(f.issuer.value, f.subject.value));
      var revision := RevisionOf(f.revision.value);
      if reviewer.Some? && reviewer.value.id == owner.id && revision.Some? then
        Some(Tracked(Some(ReviewRecord(revision.value, f.reviewedAt.value, reviewer.value))))
      else None
    else None
  }

  function RestoreNote(n: Note): Option<Note> {
    if ValidNote(n) then Some(n) else None
  }

  // A note without provenance is of unknown origin and its reviews are not tracked.
  function ReadProvenance(env: Environment, principals: seq<Principal>, owner: PrincipalRef, p: Option<Provenance>)
    : Option<(CreationSource, ReviewTracking)>
  {
    if p.None? then Some((UnknownSource, Untracked))
    else
      var review := ReadReview(env, principals, owner, p.value.review);
      if review.Some? then Some((p.value.createdVia, review.value)) else None
  }

  function ReadNote(env: Environment, principals: seq<Principal>, n: ArchiveNote): Option<Note> {
    var draft := env.validate(n.source);
    var noteId := env.parseId(n.noteId);
    var creator := RefOf(env, principals, n.creator);
    var revision := RevisionOf(n.revision);
    if draft.None? || noteId.None? || creator.None? || revision.None? then None
    else
      var provenance := ReadProvenance(env, principals, creator.value, n.provenance);
      if provenance.None? then None
      else
        RestoreNote(Note(noteId.value, creator.value, draft.value.title, n.source, draft.value.tags,
                         n.createdAt, n.updatedAt, revision.value, n.deletedAt,
                         provenance.value.0, provenance.value.1))
  }

  // The owner, the creation time and the origin of a revision are those of the current note.
  function ReadRevision(env: Environment, principals: seq<Principal>, notes: seq<Note>,
                        e: ArchiveRevision): Option<NoteRevision> {
    var noteId := env.parseId(e.noteId);
    var draft := env.validate(e.source);
    var revision := RevisionOf(e.revision);
    var changedBy := RefOf(env, principals, e.changedBy);
    if noteId.None? || draft.None? || revision.None? || changedBy.None? then None
    else
      var current := CurrentNote(notes, noteId.value);
      if current.None? then None
      else
        var review := ReadReview(env, principals, current.value.owner, e.review);
        if review.None? then None
        else
          var historical := RestoreNote(
            Note(noteId.value, current.value.owner, draft.value.title, e.source, draft.value.tags,
                 current.value.createdAt, e.changedAt, revision.value, e.deletedAt, current.value.createdVia,
                 review.value));
          if historical.None? then None else Some(NoteRevision(historical.value, changedBy.value, e.kind))
  }

  function ReadAcl(env: Environment, principals: seq<Principal>, e: ArchiveAcl): Option<NoteAcl> {
    var noteId, principal := env.parseId(e.noteId), RefOf(env, principals, e.identity);
    if noteId.None? || principal.None? then None else Some(NoteAcl(noteId.value, principal.value, e.permission))
  }

  predicate ValidFileName(name: string) {
    && name != "" && |name| <= MAX_FILE_NAME_CHARACTERS && name != "." && name != ".."
    && forall i | 0 <= i < |name| :: !IsControl(name[i]) && name[i] != '/' && name[i] != '\\'
  }

  function ReadAttachment(env: Environment, principals: seq<Principal>,
                          a: ArchiveAttachment): Option<StoredAttachment> {
    var attachmentId, noteId := env.parseId(a.attachmentId), env.parseId(a.noteId);
    var createdBy := RefOf(env, principals, a.createdBy);
    var bytes := env.decode64(a.contentBase64);
    var sha256 := HexCodec.Decode(a.sha256);
    var name := env.trimmedNfc(a.fileName);
    if attachmentId.None? || noteId.None? || createdBy.None? || bytes.None? || sha256.None? then None
    else if !ValidFileName(name) || a.byteLength == 0 || a.byteLength > MAX_ATTACHMENT_BYTES then None
    else if |bytes.value| != a.byteLength || env.detect(bytes.value) != Some(a.mediaType)
            || env.digest(bytes.value) != sha256.value
    then None
    else Some(StoredAttachment(attachmentId.value, noteId.value, name, a.mediaType, sha256.value, a.createdAt,
                               createdBy.value, bytes.value))
  }

  predicate NoneAdjacent(ids: seq<string>) {
    forall i | 0 <= i < |ids| - 1 :: ids[i] != ids[i + 1]
  }

  // The attachments that the source uses are exactly those that the entry lists, each once.
  predicate IdsMatch(draft: Draft, attachmentIds: seq<string>) {
    var declared := Sort(attachmentIds, TextKey);
    NoneAdjacent(declared) && declared == Dedup(Sort(draft.attachmentIds, TextKey))
  }

  function ReadReferences(env: Environment, e: ArchiveRevision): Option<seq<AttachmentReference>> {
    var noteId, revision, draft := env.parseId(e.noteId), RevisionOf(e.revision), env.validate(e.source);
    if noteId.None? || revision.None? || draft.None? || !IdsMatch(draft.value, e.attachmentIds) then None
    else
      var ids := Traverse(env.parseId, e.attachmentIds);
      if ids.None? then None else Some(Map(ReferenceTo(noteId.value, revision.value), ids.value))
  }

  function ReferenceTo(noteId: string, revision: Revision): string -> AttachmentReference {
    (attachmentId: string) => AttachmentReference(noteId, revision, attachmentId)
  }

  function NoteReader(env: Environment, principals: seq<Principal>): ArchiveNote -> Option<Note> {
    (n: ArchiveNote) => ReadNote(env, principals, n)
  }

  function RevisionReader(env: Environment, principals: seq<Principal>,
                          notes: seq<Note>): ArchiveRevision -> Option<NoteRevision> {
    (e: ArchiveRevision) => ReadRevision(env, principals, notes, e)
  }

  function AclReader(env: Environment, principals: seq<Principal>): ArchiveAcl -> Option<NoteAcl> {
    (e: ArchiveAcl) => ReadAcl(env, principals, e)
  }

  function AttachmentReader(env: Environment,
                            principals: seq<Principal>): ArchiveAttachment -> Option<StoredAttachment> {
    (a: ArchiveAttachment) => ReadAttachment(env, principals, a)
  }

  function ReferencesReader(env: Environment): ArchiveRevision -> Option<seq<AttachmentReference>> {
    (e: ArchiveRevision) => ReadReferences(env, e)
  }

  // ---------------------------------------------------------------- reading archives

  datatype Parts = Parts(
    principals: seq<Principal>, notes: seq<Note>, revisions: seq<NoteRevision>, acl: seq<NoteAcl>,
    attachments: seq<StoredAttachment>, references: seq<seq<AttachmentReference>>)

  // Both callers check that the archive has its histories and attachments.
  predicate HasParts(a: Archive) {
    a.revisions.Some? && a.attachments.Some?
  }

  function ReadParts(env: Environment, a: Archive): Option<Parts>
    requires HasParts(a)
  {
    var principals := if a.principals.None? then None else DeclaredPrincipals(env, a.principals.value);
    if principals.None? then None
    else
      var notes := Traverse(NoteReader(env, principals.value), a.notes);
      if notes.None? then None
      else
        var revisions := Traverse(RevisionReader(env, principals.value, notes.value), a.revisions.value);
        var acl := Traverse(AclReader(env, principals.value), a.acl);
        var attachments := Traverse(AttachmentReader(env, principals.value), a.attachments.value);
        var references := Traverse(ReferencesReader(env), a.revisions.value);
        if revisions.None? || acl.None? || attachments.None? || references.None? then None
        else Some(Parts(principals.value, notes.value, revisions.value, acl.value, attachments.value, references.value))
  }

  // The builders one after the other, each on what the one before accepted.
  function Assemble(p: Parts): Option<Snapshot> {
    var s := New(p.notes, p.acl);
    if s.None? then None
    else
      var t := WithNoteRevisions(s.value, p.revisions);
      if t.None? then None
      else
        var u := WithPrincipals(t.value, p.principals);
        if u.None? then None
        else WithAttachments(u.value, p.attachments, Flatten(p.references))
  }

  function Contents(env: Environment, a: Archive): Option<Snapshot>
    requires HasParts(a)
  {
    var p := ReadParts(env, a);
    if p.None? then None else Assemble(p.value)
  }

  predicate HasProvenance(a: Archive) {
    forall i | 0 <= i < |a.notes| :: a.notes[i].provenance.Some?
  }

  function Validate(env: Environment, a: Archive): Option<Snapshot> {
    if a.format != ARCHIVE_FORMAT || a.packageVersion != env.packageVersion
       || a.profileVersion != ARCHIVE_NOTE_PROFILE_VERSION
       || !HasProvenance(a) || !HasParts(a)
    then None
    else Contents(env, a)
  }

  // ---------------------------------------------------------------- writing

  function IsAlias(p: Principal): Identity -> bool {
    (i: Identity) => i != p.primary
  }

  function WritePrincipal(p: Principal): ArchivePrincipal {
    ArchivePrincipal(p.primary, Filter(IsAlias(p), p.identities))
  }

  function WriteReview(review: ReviewTracking): ReviewFields {
    var last := LastReview(review);
    if last.None? then ReviewFields(review.Tracked?, None, None, None, None)
    else ReviewFields(review.Tracked?, Some(last.value.revision), Some(last.value.reviewedAt),
                      Some(last.value.reviewer.primary.issuer), Some(last.value.reviewer.primary.subject))
  }

  function WriteNote(n: Note): ArchiveNote {
    ArchiveNote(n.noteId, n.owner.primary, n.source, n.createdAt, n.updatedAt, n.revision, n.deletedAt,
                Some(Provenance(n.createdVia, WriteReview(n.review))))
  }

  function RefersToRevision(noteId: string, revision: Revision): AttachmentReference -> bool {
    (r: AttachmentReference) => r.noteId == noteId && r.revision == revision
  }

  function AttachmentIdOf(r: AttachmentReference): string { r.attachmentId }

  function WriteRevision(references: seq<AttachmentReference>, e: NoteRevision): ArchiveRevision {
    ArchiveRevision(e.note.noteId, e.note.revision, e.note.updatedAt, e.changedBy.primary, e.kind, e.note.source,
                    e.note.deletedAt, WriteReview(e.note.review),
                    Map(AttachmentIdOf, Filter(RefersToRevision(e.note.noteId, e.note.revision), references)))
  }

  function RevisionWriter(references: seq<AttachmentReference>): NoteRevision -> ArchiveRevision {
    (e: NoteRevision) => WriteRevision(references, e)
  }

  function AttachmentWriter(env: Environment): StoredAttachment -> ArchiveAttachment {
    (a: StoredAttachment) =>
      ArchiveAttachment(a.attachmentId, a.noteId, a.fileName, a.mediaType, |a.bytes|, HexCodec.Encode(a.sha256),
                        env.encode64(a.bytes), a.createdAt, a.createdBy.primary)
  }

  function WriteAcl(e: NoteAcl): ArchiveAcl {
    ArchiveAcl(e.noteId, e.principal.primary, e.permission)
  }

  function Written(env: Environment, s: Snapshot): Archive {
    Archive(ARCHIVE_FORMAT, env.packageVersion, ARCHIVE_NOTE_PROFILE_VERSION,
            Some(Map(WritePrincipal, s.principals)),
            Map(WriteNote, s.notes),
            Some(Map(RevisionWriter(s.references), s.revisions)),
            Some(Map(AttachmentWriter(env), s.attachments)),
            Map(WriteAcl, s.acl))
  }

  function Create(env: Environment, s: Snapshot): Archive {
    Canonical(Written(env, s))
  }

  // ---------------------------------------------------------------- migration

  datatype Migration =
    | Migrated(archive: Archive)
    | UnsupportedContract
    | MissingParts
    | MissingProvenance(position: nat)
    | InvalidContents

  predicate IsPreviousContract(a: Archive) {
    a.format == PREVIOUS_FORMAT && a.packageVersion == PREVIOUS_PACKAGE_VERSION
        && a.profileVersion == PREVIOUS_PROFILE_VERSION
  }

  function FirstWithoutProvenance(notes: seq<ArchiveNote>): (position: nat)
    ensures position == 0 <==> forall i | 0 <= i < |notes| :: notes[i].provenance.Some?
    ensures position > 0 ==>
              && position <= |notes| && notes[position - 1].provenance.None?
              && forall i | 0 <= i < position - 1 :: notes[i].provenance.Some?
  {
    if notes == [] then 0
    else if notes[0].provenance.None? then 1
    else
      var rest := FirstWithoutProvenance(notes[1..]);
      assert forall i | 0 < i < |notes| :: notes[i] == notes[1..][i - 1];
      if rest == 0 then 0 else rest + 1
  }

  function Migrate(env: Environment, a: Archive): Migration {
    if !IsPreviousContract(a) then UnsupportedContract
    else if a.principals.None? || !HasParts(a) then MissingParts
    else if FirstWithoutProvenance(a.notes) != 0 then MissingProvenance(FirstWithoutProvenance(a.notes))
    else if Contents(env, a).None? then InvalidContents
    else Migrated(Create(env, Contents(env, a).value))
  }
}
