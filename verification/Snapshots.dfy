// The consistency boundary of a logical snapshot: what its builders accept, and what holds after any
// sequence of them (crates/marginalis-application/src/snapshot.rs).
module Snapshots {
  import opened Options
  import opened Domain
  import opened Sorting
  import opened Principals

  const MAX_ATTACHMENTS_PER_NOTE := 32

  const MAX_BYTES_PER_NOTE := 64 * 1024 * 1024

  datatype Snapshot = Snapshot(
    principals: seq<Principal>,
    notes: seq<Note>,
    revisions: seq<NoteRevision>,
    attachments: seq<StoredAttachment>,
    references: seq<AttachmentReference>,
    acl: seq<NoteAcl>)

  // ---------------------------------------------------------------- references to principals

  function ReviewerOf(n: Note): seq<PrincipalRef> {
    if LastReview(n.review).Some? then [LastReview(n.review).value.reviewer] else []
  }

  function NoteReferences(notes: seq<Note>): seq<PrincipalRef> {
    if notes == [] then [] else [notes[0].owner] + ReviewerOf(notes[0]) + NoteReferences(notes[1..])
  }

  function RevisionReferences(revisions: seq<NoteRevision>): seq<PrincipalRef> {
    if revisions == [] then []
    else [revisions[0].changedBy] + ReviewerOf(revisions[0].note) + RevisionReferences(revisions[1..])
  }

  function CreatorOf(a: StoredAttachment): PrincipalRef { a.createdBy }

  function GranteeOf(e: NoteAcl): PrincipalRef { e.principal }

  // The references that the builders resolve. The owners of historical notes are not among them.
  function PrincipalReferences(s: Snapshot): seq<PrincipalRef> {
    NoteReferences(s.notes) + RevisionReferences(s.revisions) + Map(CreatorOf, s.attachments) + Map(GranteeOf, s.acl)
  }

  // Every principal that a note names resolves.
  predicate NoteResolves(principals: seq<Principal>, n: Note) {
    Resolves(principals, n.owner)
        && (LastReview(n.review).Some? ==> Resolves(principals, LastReview(n.review).value.reviewer))
  }

  predicate RevisionResolves(principals: seq<Principal>, e: NoteRevision) {
    && Resolves(principals, e.changedBy)
    && (LastReview(e.note.review).Some? ==> Resolves(principals, LastReview(e.note.review).value.reviewer))
  }

  predicate RecordsResolve(s: Snapshot) {
    && (forall i | 0 <= i < |s.notes| :: NoteResolves(s.principals, s.notes[i]))
    && (forall i | 0 <= i < |s.revisions| :: RevisionResolves(s.principals, s.revisions[i]))
    && (forall i | 0 <= i < |s.attachments| :: Resolves(s.principals, s.attachments[i].createdBy))
    && (forall i | 0 <= i < |s.acl| :: Resolves(s.principals, s.acl[i].principal))
  }

  lemma {:induction false} AllResolveSplits(principals: seq<Principal>, a: seq<PrincipalRef>, b: seq<PrincipalRef>)
    ensures AllResolve(principals, a + b) <==> AllResolve(principals, a) && AllResolve(principals, b)
  {
    var whole := a + b;
    if AllResolve(principals, whole) {
      forall i | 0 <= i < |a|
        ensures Resolves(principals, a[i])
      {
        assert whole[i] == a[i];
      }
      forall i | 0 <= i < |b|
        ensures Resolves(principals, b[i])
      {
        assert whole[|a| + i] == b[i];
      }
    }
  }

  lemma {:induction false} NotesResolve(principals: seq<Principal>, notes: seq<Note>)
    ensures AllResolve(principals, NoteReferences(notes))
            <==> forall i | 0 <= i < |notes| :: NoteResolves(principals, notes[i])
  {
    if notes != [] {
      NotesResolve(principals, notes[1..]);
      AllResolveSplits(principals, [notes[0].owner] + ReviewerOf(notes[0]), NoteReferences(notes[1..]));
      AllResolveSplits(principals, [notes[0].owner], ReviewerOf(notes[0]));
      assert AllResolve(principals, [notes[0].owner]) <==> Resolves(principals, [notes[0].owner][0]);
      assert AllResolve(principals, ReviewerOf(notes[0]))
          <==> (LastReview(notes[0].review).Some? ==> Resolves(principals, ReviewerOf(notes[0])[0]));
      assert (forall i | 0 <= i < |notes| :: NoteResolves(principals, notes[i]))
          <==> (NoteResolves(principals, notes[0])
                && forall i | 0 <= i < |notes[1..]| :: NoteResolves(principals, notes[1..][i])) by {
        assert forall i | 0 < i < |notes| :: notes[i] == notes[1..][i - 1];
      }
    }
  }

  lemma {:induction false} RevisionsResolve(principals: seq<Principal>, revisions: seq<NoteRevision>)
    ensures AllResolve(principals, RevisionReferences(revisions))
       <==> forall i | 0 <= i < |revisions| :: RevisionResolves(principals, revisions[i])
  {
    if revisions != [] {
      RevisionsResolve(principals, revisions[1..]);
      AllResolveSplits(principals, [revisions[0].changedBy] + ReviewerOf(revisions[0].note),
                       RevisionReferences(revisions[1..]));
      AllResolveSplits(principals, [revisions[0].changedBy], ReviewerOf(revisions[0].note));
      assert AllResolve(principals, [revisions[0].changedBy]) <==> Resolves(principals, [revisions[0].changedBy][0]);
      assert AllResolve(principals, ReviewerOf(revisions[0].note))
          <==> (LastReview(revisions[0].note.review).Some? ==> Resolves(principals, ReviewerOf(revisions[0].note)[0]));
      assert (forall i | 0 <= i < |revisions| :: RevisionResolves(principals, revisions[i]))
          <==> (RevisionResolves(principals, revisions[0])
                && forall i | 0 <= i < |revisions[1..]| :: RevisionResolves(principals, revisions[1..][i])) by {
        assert forall i | 0 < i < |revisions| :: revisions[i] == revisions[1..][i - 1];
      }
    }
  }

  // The collected references resolve exactly when every record does.
  lemma {:induction false} ReferencesCoverRecords(s: Snapshot)
    ensures AllResolve(s.principals, PrincipalReferences(s)) <==> RecordsResolve(s)
  {
    var n, r := NoteReferences(s.notes), RevisionReferences(s.revisions);
    var a, e := Map(CreatorOf, s.attachments), Map(GranteeOf, s.acl);
    AllResolveSplits(s.principals, n + r + a, e);
    AllResolveSplits(s.principals, n + r, a);
    AllResolveSplits(s.principals, n, r);
    NotesResolve(s.principals, s.notes);
    RevisionsResolve(s.principals, s.revisions);
    assert AllResolve(s.principals, a)
           <==> forall i | 0 <= i < |s.attachments| :: Resolves(s.principals, s.attachments[i].createdBy);
    assert AllResolve(s.principals, e) <==> forall i | 0 <= i < |s.acl| :: Resolves(s.principals, s.acl[i].principal);
  }

  // ---------------------------------------------------------------- what the builders check

  predicate NoteOk(notes: seq<Note>, i: nat)
    requires i < |notes|
  {
    forall j | 0 <= j < i :: notes[j].noteId != notes[i].noteId
  }

  predicate NotesOk(notes: seq<Note>) {
    forall i | 0 <= i < |notes| :: NoteOk(notes, i)
  }

  function CurrentNote(notes: seq<Note>, noteId: string): Option<Note> {
    if notes == [] then None
    else if notes[0].noteId == noteId then Some(notes[0])
    else CurrentNote(notes[1..], noteId)
  }

  predicate AclOk(notes: seq<Note>, acl: seq<NoteAcl>, i: nat)
    requires i < |acl|
  {
    var note := CurrentNote(notes, acl[i].noteId);
    && note.Some? && acl[i].principal.id != note.value.owner.id
    && forall j | 0 <= j < i :: !(acl[j].noteId == acl[i].noteId && acl[j].principal.id == acl[i].principal.id)
  }

  predicate AclsOk(notes: seq<Note>, acl: seq<NoteAcl>) {
    forall i | 0 <= i < |acl| :: AclOk(notes, acl, i)
  }

  function RevisionKey(e: NoteRevision): Key {
    [Points(e.note.noteId), [e.note.revision]]
  }

  // One entry of the sorted history, against the current note and the entries before it.
  predicate RevisionOk(notes: seq<Note>, revisions: seq<NoteRevision>, i: nat)
    requires i < |revisions|
  {
    var n := revisions[i].note;
    var current := CurrentNote(notes, n.noteId);
    && current.Some?
    && (forall j | 0 <= j < i :: !(revisions[j].note.noteId == n.noteId && revisions[j].note.revision == n.revision))
    && n.owner.id == current.value.owner.id
    && n.createdAt == current.value.createdAt
    && n.createdVia == current.value.createdVia
    && n.revision <= current.value.revision
  }

  predicate RevisionsOk(notes: seq<Note>, revisions: seq<NoteRevision>) {
    forall i | 0 <= i < |revisions| :: RevisionOk(notes, revisions, i)
  }

  function OfNote(noteId: string): NoteRevision -> bool {
    (e: NoteRevision) => e.note.noteId == noteId
  }

  function History(revisions: seq<NoteRevision>, noteId: string): seq<NoteRevision> {
    Filter(OfNote(noteId), revisions)
  }

  predicate GapFree(history: seq<NoteRevision>) {
    forall i | 0 < i < |history| :: history[i].note.revision == history[i - 1].note.revision + 1
  }

  predicate HistoryOk(history: seq<NoteRevision>, current: Note) {
    && history != []
    && ById(history[|history| - 1].note) == ById(current)
    && GapFree(history)
  }

  predicate HistoriesOk(notes: seq<Note>, revisions: seq<NoteRevision>) {
    forall i | 0 <= i < |notes| :: HistoryOk(History(revisions, notes[i].noteId), notes[i])
  }

  function AttachmentIdKey(a: StoredAttachment): Key {
    [Points(a.attachmentId)]
  }

  function ReferenceKey(r: AttachmentReference): Key {
    [Points(r.noteId), [r.revision], Points(r.attachmentId)]
  }

  function Count(attachments: seq<StoredAttachment>, noteId: string): nat {
    if attachments == [] then 0
    else
      var last := |attachments| - 1;
      Count(attachments[..last], noteId) + if attachments[last].noteId == noteId then 1 else 0
  }

  function Bytes(attachments: seq<StoredAttachment>, noteId: string): nat {
    if attachments == [] then 0
    else
      var last := |attachments| - 1;
      Bytes(attachments[..last], noteId) + if attachments[last].noteId == noteId then |attachments[last].bytes| else 0
  }

  predicate WithinQuota(attachments: seq<StoredAttachment>, noteId: string) {
    Count(attachments, noteId) <= MAX_ATTACHMENTS_PER_NOTE && Bytes(attachments, noteId) <= MAX_BYTES_PER_NOTE
  }

  predicate IsDeclaredId(principals: seq<Principal>, id: int) {
    exists i | 0 <= i < |principals| :: principals[i].id == id
  }

  predicate IsNote(notes: seq<Note>, noteId: string) {
    exists i | 0 <= i < |notes| :: notes[i].noteId == noteId
  }

  predicate IsRevision(revisions: seq<NoteRevision>, noteId: string, revision: Revision) {
    exists i | 0 <= i < |revisions| :: revisions[i].note.noteId == noteId && revisions[i].note.revision == revision
  }

  predicate IsAttachmentOf(attachments: seq<StoredAttachment>, attachmentId: string, noteId: string) {
    exists i | 0 <= i < |attachments| :: attachments[i].attachmentId == attachmentId && attachments[i].noteId == noteId
  }

  predicate AttachmentOk(s: Snapshot, attachments: seq<StoredAttachment>, i: nat)
    requires i < |attachments|
  {
    && (forall j | 0 <= j < i :: attachments[j].attachmentId != attachments[i].attachmentId)
    && IsNote(s.notes, attachments[i].noteId)
    && IsDeclaredId(s.principals, attachments[i].createdBy.id)
    && WithinQuota(attachments[..i + 1], attachments[i].noteId)
  }

  predicate AttachmentsOk(s: Snapshot, attachments: seq<StoredAttachment>) {
    forall i | 0 <= i < |attachments| :: AttachmentOk(s, attachments, i)
  }

  predicate ReferenceOk(s: Snapshot, attachments: seq<StoredAttachment>, references: seq<AttachmentReference>, i: nat)
    requires i < |references|
  {
    && IsRevision(s.revisions, references[i].noteId, references[i].revision)
    && IsAttachmentOf(attachments, references[i].attachmentId, references[i].noteId)
    && forall j | 0 <= j < i :: references[j] != references[i]
  }

  predicate ReferencesOk(s: Snapshot, attachments: seq<StoredAttachment>, references: seq<AttachmentReference>) {
    forall i | 0 <= i < |references| :: ReferenceOk(s, attachments, references, i)
  }

  // ---------------------------------------------------------------- the builders on values

  function Included(s: Snapshot): Option<Snapshot> {
    var principals := Include(s.principals, PrincipalReferences(s));
    if principals.None? then None else Some(s.(principals := principals.value))
  }

  function Baseline(n: Note): NoteRevision {
    NoteRevision(n, n.owner, Imported)
  }

  function New(notes: seq<Note>, acl: seq<NoteAcl>): Option<Snapshot> {
    if NotesOk(notes) && AclsOk(notes, acl) then Included(Snapshot([], notes, Map(Baseline, notes), [], [], acl))
    else None
  }

  function WithNoteRevisions(s: Snapshot, revisions: seq<NoteRevision>): Option<Snapshot> {
    var sorted := Sort(revisions, RevisionKey);
    if RevisionsOk(s.notes, sorted) && HistoriesOk(s.notes, sorted) then Included(s.(revisions := sorted)) else None
  }

  function WithAttachments(s: Snapshot, attachments: seq<StoredAttachment>,
                           references: seq<AttachmentReference>): Option<Snapshot> {
    var a, r := Sort(attachments, AttachmentIdKey), Sort(references, ReferenceKey);
    if AttachmentsOk(s, a) && ReferencesOk(s, a, r) then Included(s.(attachments := a, references := r)) else None
  }

  predicate PrincipalsOk(principals: seq<Principal>) {
    forall i | 0 <= i < |principals| :: PrincipalOk(principals, i)
  }

  function WithPrincipals(s: Snapshot, principals: seq<Principal>): Option<Snapshot> {
    var replaced := s.(principals := principals);
    if PrincipalsOk(principals) && AllResolve(principals, PrincipalReferences(replaced)) then Some(replaced) else None
  }

  // ---------------------------------------------------------------- what every run keeps

  // One successful call of a builder.
  datatype Call =
    | Revisions(revisions: seq<NoteRevision>)
    | Attachments(attachments: seq<StoredAttachment>, references: seq<AttachmentReference>)
    | Declare(principals: seq<Principal>)

  // A principal value exists only when its constructor accepted it.
  predicate ValidCall(call: Call) {
    call.Declare? ==> forall i | 0 <= i < |call.principals| :: ValidPrincipal(call.principals[i])
  }

  function Apply(s: Snapshot, call: Call): Option<Snapshot> {
    match call
    case Revisions(revisions) => WithNoteRevisions(s, revisions)
    case Attachments(attachments, references) => WithAttachments(s, attachments, references)
    case Declare(principals) => WithPrincipals(s, principals)
  }

  function Run(s: Snapshot, calls: seq<Call>): Option<Snapshot>
    decreases |calls|
  {
    if calls == [] then Some(s)
    else if Apply(s, calls[0]).None? then None
    else Run(Apply(s, calls[0]).value, calls[1..])
  }

  // IDs are unique, identities disjoint, and all collected references resolve.
  predicate Consistent(s: Snapshot) {
    Declared(s.principals) && RecordsResolve(s)
  }

  // Histories are complete: sorted, without gaps, ending at the current note.
  predicate Complete(s: Snapshot) {
    && NotesOk(s.notes) && AclsOk(s.notes, s.acl)
    && RevisionsOk(s.notes, s.revisions)
    && HistoriesOk(s.notes, s.revisions)
  }

  lemma {:induction false} IncludedIsConsistent(s: Snapshot)
    requires Declared(s.principals) && Included(s).Some?
    ensures var t := Included(s).value;
            && Consistent(t) && s.principals <= t.principals && t == s.(principals := t.principals)
            && AllResolve(t.principals, PrincipalReferences(t))
  {
    IncludeResolves(s.principals, PrincipalReferences(s));
    var t := Included(s).value;
    assert PrincipalReferences(t) == PrincipalReferences(s);
    ReferencesCoverRecords(t);
  }

  // After including, the validation of references succeeds, and including again changes nothing.
  lemma {:induction false} IncludingMakesValidationSucceed(s: Snapshot)
    requires Declared(s.principals) && Included(s).Some?
    ensures var t := Included(s).value;
            WithPrincipals(t, t.principals) == Some(t) && Included(t) == Some(t)
  {
    IncludedIsConsistent(s);
    var t := Included(s).value;
    assert t.(principals := t.principals) == t;
    IncludeOfResolved(t.principals, PrincipalReferences(t));
  }

  lemma {:induction false} StepKeepsConsistency(s: Snapshot, call: Call)
    requires Consistent(s) && ValidCall(call) && Apply(s, call).Some?
    ensures Consistent(Apply(s, call).value)
  {
    match call
    case Revisions(revisions) => IncludedIsConsistent(s.(revisions := Sort(revisions, RevisionKey)));
    case Attachments(attachments, references) =>
      IncludedIsConsistent(s.(attachments := Sort(attachments, AttachmentIdKey),
                              references := Sort(references, ReferenceKey)));
    case Declare(principals) => ReferencesCoverRecords(s.(principals := principals));
  }

  lemma {:induction false} RunKeepsConsistency(s: Snapshot, calls: seq<Call>)
    requires Consistent(s) && (forall i | 0 <= i < |calls| :: ValidCall(calls[i])) && Run(s, calls).Some?
    ensures Consistent(Run(s, calls).value)
    decreases |calls|
  {
    if calls != [] {
      StepKeepsConsistency(s, calls[0]);
      RunKeepsConsistency(Apply(s, calls[0]).value, calls[1..]);
    }
  }

  // After any sequence of builder calls that succeed, principal IDs are unique, identities belong to
  // one principal, and the collected references resolve.
  lemma {:induction false} EverySnapshotIsConsistent(notes: seq<Note>, acl: seq<NoteAcl>, calls: seq<Call>)
    requires New(notes, acl).Some? && (forall i | 0 <= i < |calls| :: ValidCall(calls[i]))
    requires Run(New(notes, acl).value, calls).Some?
    ensures Consistent(Run(New(notes, acl).value, calls).value)
  {
    IncludedIsConsistent(Snapshot([], notes, Map(Baseline, notes), [], [], acl));
    RunKeepsConsistency(New(notes, acl).value, calls);
  }
}
