// Histories and attachments of a snapshot: what an accepted history looks like, which attachment
// references stay valid, and where the builders check less than they seem to
// (crates/marginalis-application/src/snapshot.rs).
module SnapshotHistory {
  import opened Options
  import opened Domain
  import opened Sorting
  import opened Principals
  import opened Snapshots

  // ---------------------------------------------------------------- lookup of notes

  lemma {:induction false} CurrentNoteFinds(notes: seq<Note>, noteId: string) returns (i: nat)
    ensures CurrentNote(notes, noteId).Some? ==>
              i < |notes| && notes[i] == CurrentNote(notes, noteId).value && notes[i].noteId == noteId
    ensures CurrentNote(notes, noteId).None? ==> forall j | 0 <= j < |notes| :: notes[j].noteId != noteId
  {
    i := 0;
    if notes != [] && notes[0].noteId != noteId {
      var k := CurrentNoteFinds(notes[1..], noteId);
      i := k + 1;
      if CurrentNote(notes, noteId).None? {
        forall j | 0 <= j < |notes|
          ensures notes[j].noteId != noteId
        {
          if j > 0 {
            assert notes[1..][j - 1] == notes[j];
          }
        }
      }
    }
  }

  lemma {:induction false} CurrentNoteAt(notes: seq<Note>, i: nat)
    requires NotesOk(notes) && i < |notes|
    ensures CurrentNote(notes, notes[i].noteId) == Some(notes[i])
  {
    var j := CurrentNoteFinds(notes, notes[i].noteId);
    assert NoteOk(notes, i) && NoteOk(notes, j);
  }

  // ---------------------------------------------------------------- histories

  lemma {:induction false} NoHistory(notes: seq<Note>, noteId: string)
    requires forall j | 0 <= j < |notes| :: notes[j].noteId != noteId
    ensures History(Map(Baseline, notes), noteId) == []
  {
    if notes != [] {
      assert Map(Baseline, notes)[1..] == Map(Baseline, notes[1..]);
      NoHistory(notes[1..], noteId);
    }
  }

  // The baseline of a note is its current revision alone.
  lemma {:induction false} BaselineHistory(notes: seq<Note>, i: nat)
    requires NotesOk(notes) && i < |notes|
    ensures History(Map(Baseline, notes), notes[i].noteId) == [Baseline(notes[i])]
  {
    assert Map(Baseline, notes)[1..] == Map(Baseline, notes[1..]);
    if i == 0 {
      forall j | 0 <= j < |notes[1..]|
        ensures notes[1..][j].noteId != notes[0].noteId
      {
        assert NoteOk(notes, j + 1);
      }
      NoHistory(notes[1..], notes[0].noteId);
    } else {
      assert NoteOk(notes, i);
      forall k | 0 <= k < |notes[1..]|
        ensures NoteOk(notes[1..], k)
      {
        assert NoteOk(notes, k + 1);
      }
      BaselineHistory(notes[1..], i - 1);
    }
  }

  lemma {:induction false} BaselineIsOk(notes: seq<Note>, revisions: seq<NoteRevision>)
    requires NotesOk(notes) && multiset(revisions) == multiset(Map(Baseline, notes))
    requires forall i | 0 <= i < |notes| :: History(revisions, notes[i].noteId) == [Baseline(notes[i])]
    ensures RevisionsOk(notes, revisions) && HistoriesOk(notes, revisions)
  {
    PermutationMembers(revisions, Map(Baseline, notes));
    forall k | 0 <= k < |revisions|
      ensures RevisionOk(notes, revisions, k)
    {
      assert revisions[k] in Map(Baseline, notes);
      var i := MapIndex(Baseline, notes, revisions[k]);
      CurrentNoteAt(notes, i);
      OneInHistory(revisions, notes[i].noteId, k);
    }
  }

  // The only entry of a history has no other before it.
  lemma {:induction false} OneInHistory(revisions: seq<NoteRevision>, noteId: string, k: nat)
    requires k < |revisions| && revisions[k].note.noteId == noteId && |History(revisions, noteId)| == 1
    ensures forall j | 0 <= j < k :: revisions[j].note.noteId != noteId
  {
    var p := OfNote(noteId);
    var a, b := revisions[..k], revisions[k..];
    assert revisions == a + b;
    FilterSplits(p, a, b);
    FilterMembers(p, a);
    assert b[0] == revisions[k];
    assert Filter(p, a) == [];
    forall j | 0 <= j < k
      ensures revisions[j].note.noteId != noteId
    {
      assert a[j] in a && a[j] !in Filter(p, a);
    }
  }

  lemma {:induction false} NewIsComplete(notes: seq<Note>, acl: seq<NoteAcl>)
    requires New(notes, acl).Some?
    ensures Complete(New(notes, acl).value)
  {
    forall i | 0 <= i < |notes|
      ensures History(Map(Baseline, notes), notes[i].noteId) == [Baseline(notes[i])]
    {
      BaselineHistory(notes, i);
    }
    BaselineIsOk(notes, Map(Baseline, notes));
  }

  lemma {:induction false} RunKeepsComplete(s: Snapshot, calls: seq<Call>)
    requires Complete(s) && Run(s, calls).Some?
    ensures Complete(Run(s, calls).value)
    decreases |calls|
  {
    if calls != [] {
      RunKeepsComplete(Apply(s, calls[0]).value, calls[1..]);
    }
  }

  // After any sequence of successful builder calls every note has a complete history.
  lemma {:induction false} EverySnapshotIsComplete(notes: seq<Note>, acl: seq<NoteAcl>, calls: seq<Call>)
    requires New(notes, acl).Some? && Run(New(notes, acl).value, calls).Some?
    ensures Complete(Run(New(notes, acl).value, calls).value)
  {
    NewIsComplete(notes, acl);
    RunKeepsComplete(New(notes, acl).value, calls);
  }

  function Number(e: NoteRevision): int { e.note.revision }

  function Interval(first: int, last: int): seq<int>
    requires first <= last
  {
    seq(last - first + 1, i => first + i)
  }

  lemma {:induction false} GapFreeCounts(history: seq<NoteRevision>, i: nat)
    requires GapFree(history) && i < |history|
    ensures history[i].note.revision == history[0].note.revision + i
  {
    if i > 0 {
      GapFreeCounts(history, i - 1);
    }
  }

  // The revisions of a complete history are one interval that ends at the current revision, and the
  // last entry is the current note, up to the identities of principals.
  lemma {:induction false} HistoryIsInterval(history: seq<NoteRevision>, current: Note)
    requires HistoryOk(history, current)
    ensures history[0].note.revision <= current.revision
    ensures Map(Number, history) == Interval(history[0].note.revision, current.revision)
    ensures ById(history[|history| - 1].note) == ById(current)
  {
    var last := |history| - 1;
    SameRevision(history[last].note, current);
    GapFreeCounts(history, last);
    NumbersCount(history);
  }

  lemma {:induction false} SameRevision(a: Note, b: Note)
    requires ById(a) == ById(b)
    ensures a.revision == b.revision
  {
  }

  lemma {:induction false} NumbersCount(history: seq<NoteRevision>)
    requires GapFree(history) && history != []
    ensures history[0].note.revision <= history[|history| - 1].note.revision
    ensures Map(Number, history) == Interval(history[0].note.revision, history[|history| - 1].note.revision)
  {
    GapFreeCounts(history, |history| - 1);
    forall i | 0 <= i < |history|
      ensures Map(Number, history)[i] == history[0].note.revision + i
    {
      GapFreeCounts(history, i);
    }
  }

  // An accepted history is stored as a sorted permutation of the input, and its part for each note is
  // one interval of revisions.
  lemma {:induction false} AcceptedHistory(s: Snapshot, revisions: seq<NoteRevision>, i: nat)
    requires WithNoteRevisions(s, revisions).Some? && i < |s.notes|
    ensures var t := WithNoteRevisions(s, revisions).value;
            var history := History(t.revisions, s.notes[i].noteId);
            && multiset(t.revisions) == multiset(revisions) && IsSorted(t.revisions, RevisionKey)
            && (forall e :: e in history <==> e in revisions && e.note.noteId == s.notes[i].noteId)
            && history != [] && history[0].note.revision <= s.notes[i].revision
            && Map(Number, history) == Interval(history[0].note.revision, s.notes[i].revision)
            && ById(history[|history| - 1].note) == ById(s.notes[i])
  {
    var t := WithNoteRevisions(s, revisions).value;
    SortPermutes(revisions, RevisionKey);
    SortSorts(revisions, RevisionKey);
    SortMembers(revisions, RevisionKey);
    FilterMembers(OfNote(s.notes[i].noteId), t.revisions);
    HistoryIsInterval(History(t.revisions, s.notes[i].noteId), s.notes[i]);
  }

  // ---------------------------------------------------------------- attachments

  predicate ReferencesNamed(s: Snapshot) {
    forall i | 0 <= i < |s.references| :: IsRevision(s.revisions, s.references[i].noteId, s.references[i].revision)
  }

  // Attachments belong to notes within quota; references name a revision and an attachment of one note.
  ghost predicate Covered(s: Snapshot) {
    && (forall i | 0 <= i < |s.attachments| :: IsNote(s.notes, s.attachments[i].noteId))
    && UniqueKeys(s.attachments, AttachmentIdKey)
    && (forall noteId :: WithinQuota(s.attachments, noteId))
    && (forall i, j | 0 <= i < j < |s.references| :: s.references[i] != s.references[j])
    && (forall i | 0 <= i < |s.references| ::
        IsAttachmentOf(s.attachments, s.references[i].attachmentId, s.references[i].noteId))
    && ReferencesNamed(s)
  }

  lemma {:induction false} QuotaOfPrefix(s: Snapshot, attachments: seq<StoredAttachment>, n: nat, noteId: string)
    requires AttachmentsOk(s, attachments) && n <= |attachments|
    ensures WithinQuota(attachments[..n], noteId)
  {
    if n > 0 {
      QuotaOfPrefix(s, attachments, n - 1, noteId);
      assert attachments[..n][..n - 1] == attachments[..n - 1];
      assert AttachmentOk(s, attachments, n - 1);
    }
  }

  lemma {:induction false} AcceptedAttachments(s: Snapshot, attachments: seq<StoredAttachment>,
                                               references: seq<AttachmentReference>)
    requires WithAttachments(s, attachments, references).Some?
    ensures Covered(WithAttachments(s, attachments, references).value)
  {
    var a, r := Sort(attachments, AttachmentIdKey), Sort(references, ReferenceKey);
    AcceptedObjects(s, a);
    AcceptedReferences(s, a, r);
  }

  lemma {:induction false} AcceptedObjects(s: Snapshot, a: seq<StoredAttachment>)
    requires AttachmentsOk(s, a)
    ensures UniqueKeys(a, AttachmentIdKey)
    ensures forall i | 0 <= i < |a| :: IsNote(s.notes, a[i].noteId)
    ensures forall noteId :: WithinQuota(a, noteId)
  {
    forall i, j | 0 <= i < j < |a|
      ensures AttachmentIdKey(a[i]) != AttachmentIdKey(a[j])
    {
      assert AttachmentOk(s, a, j);
      DifferentAttachments(a[i], a[j]);
    }
    assert a[..|a|] == a;
    forall noteId
      ensures WithinQuota(a, noteId)
    {
      QuotaOfPrefix(s, a, |a|, noteId);
    }
    forall i | 0 <= i < |a|
      ensures IsNote(s.notes, a[i].noteId)
    {
      assert AttachmentOk(s, a, i);
    }
  }

  lemma {:induction false} DifferentAttachments(a: StoredAttachment, b: StoredAttachment)
    ensures AttachmentIdKey(a) == AttachmentIdKey(b) <==> a.attachmentId == b.attachmentId
  {
    if AttachmentIdKey(a) == AttachmentIdKey(b) {
      assert AttachmentIdKey(a)[0] == AttachmentIdKey(b)[0];
      PointsInjective(a.attachmentId, b.attachmentId);
    }
  }

  lemma {:induction false} AcceptedReferences(s: Snapshot, a: seq<StoredAttachment>, r: seq<AttachmentReference>)
    requires ReferencesOk(s, a, r)
    ensures forall i, j | 0 <= i < j < |r| :: r[i] != r[j]
    ensures forall i | 0 <= i < |r| :: IsAttachmentOf(a, r[i].attachmentId, r[i].noteId)
    ensures forall i | 0 <= i < |r| :: IsRevision(s.revisions, r[i].noteId, r[i].revision)
  {
    forall i | 0 <= i < |r|
      ensures IsAttachmentOf(a, r[i].attachmentId, r[i].noteId) && IsRevision(s.revisions, r[i].noteId, r[i].revision)
    {
      assert ReferenceOk(s, a, r, i);
    }
    forall i, j | 0 <= i < j < |r|
      ensures r[i] != r[j]
    {
      assert ReferenceOk(s, a, r, j);
    }
  }

  // Histories that name every reference keep the attachments covered, and no others do.
  lemma {:induction false} RevisionsKeepReferences(s: Snapshot, revisions: seq<NoteRevision>)
    requires Covered(s) && WithNoteRevisions(s, revisions).Some?
    ensures Covered(WithNoteRevisions(s, revisions).value)
       <==> forall i | 0 <= i < |s.references| ::
           IsRevision(revisions, s.references[i].noteId, s.references[i].revision)
  {
    SortedNames(s, revisions);
    CoveredUpToNames(s, WithNoteRevisions(s, revisions).value);
  }

  lemma {:induction false} SortedNames(s: Snapshot, revisions: seq<NoteRevision>)
    requires WithNoteRevisions(s, revisions).Some?
    ensures ReferencesNamed(WithNoteRevisions(s, revisions).value)
       <==> forall i | 0 <= i < |s.references| ::
           IsRevision(revisions, s.references[i].noteId, s.references[i].revision)
  {
    var sorted := Sort(revisions, RevisionKey);
    SortMembers(revisions, RevisionKey);
    forall i | 0 <= i < |s.references|
      ensures IsRevision(sorted, s.references[i].noteId, s.references[i].revision)
         <==> IsRevision(revisions, s.references[i].noteId, s.references[i].revision)
    {
      SameRevisions(sorted, revisions, s.references[i]);
      SameRevisions(revisions, sorted, s.references[i]);
    }
  }

  lemma {:induction false} CoveredUpToNames(s: Snapshot, t: Snapshot)
    requires Covered(s) && t == s.(revisions := t.revisions, principals := t.principals)
    ensures Covered(t) <==> ReferencesNamed(t)
  {
  }

  lemma {:induction false} SameRevisions(a: seq<NoteRevision>, b: seq<NoteRevision>, r: AttachmentReference)
    requires forall e | e in a :: e in b
    ensures IsRevision(a, r.noteId, r.revision) ==> IsRevision(b, r.noteId, r.revision)
  {
    if IsRevision(a, r.noteId, r.revision) {
      var i :| 0 <= i < |a| && a[i].note.noteId == r.noteId && a[i].note.revision == r.revision;
      assert a[i] in b;
      var j :| 0 <= j < |b| && b[j] == a[i];
    }
  }

  // When attachments are the last data step, whatever principals are declared afterwards, every
  // reference stays covered.
  lemma {:induction false} RunKeepsCovered(s: Snapshot, calls: seq<Call>)
    requires Covered(s) && (forall i | 0 <= i < |calls| :: !calls[i].Revisions?) && Run(s, calls).Some?
    ensures Covered(Run(s, calls).value)
    decreases |calls|
  {
    if calls != [] {
      if calls[0].Attachments? {
        AcceptedAttachments(s, calls[0].attachments, calls[0].references);
      }
      RunKeepsCovered(Apply(s, calls[0]).value, calls[1..]);
    }
  }

  // Replacing the histories by the current revisions alone is always accepted, and leaves every
  // reference to an earlier revision dangling.
  lemma {:induction false} DroppingHistoryDangles(s: Snapshot, i: nat)
    requires Consistent(s) && Complete(s) && i < |s.references|
    requires forall j | 0 <= j < |s.notes| ::
             !(s.notes[j].noteId == s.references[i].noteId && s.notes[j].revision == s.references[i].revision)
    ensures WithNoteRevisions(s, Map(Baseline, s.notes)).Some?
    ensures !ReferencesNamed(WithNoteRevisions(s, Map(Baseline, s.notes)).value)
  {
    CurrentRevisionsAreAccepted(s);
    var t := WithNoteRevisions(s, Map(Baseline, s.notes)).value;
    SortMembers(Map(Baseline, s.notes), RevisionKey);
    var r := s.references[i];
    if IsRevision(t.revisions, r.noteId, r.revision) {
      var k :| 0 <= k < |t.revisions| && t.revisions[k].note.noteId == r.noteId
          && t.revisions[k].note.revision == r.revision;
      assert t.revisions[k] in Map(Baseline, s.notes);
      var j := MapIndex(Baseline, s.notes, t.revisions[k]);
    }
    assert t.references[i] == r;
  }

  // The current revisions alone are complete histories.
  lemma {:induction false} BaselinesAreComplete(notes: seq<Note>)
    requires NotesOk(notes)
    ensures var sorted := Sort(Map(Baseline, notes), RevisionKey);
            RevisionsOk(notes, sorted) && HistoriesOk(notes, sorted)
  {
    var baseline := Map(Baseline, notes);
    var sorted := Sort(baseline, RevisionKey);
    SortPermutes(baseline, RevisionKey);
    forall j | 0 <= j < |notes|
      ensures History(sorted, notes[j].noteId) == [Baseline(notes[j])]
    {
      BaselineHistory(notes, j);
      SortFilters(OfNote(notes[j].noteId), baseline, RevisionKey);
      SortOfSorted([Baseline(notes[j])], RevisionKey);
    }
    BaselineIsOk(notes, sorted);
  }

  lemma {:induction false} CurrentRevisionsAreAccepted(s: Snapshot)
    requires Consistent(s) && Complete(s)
    ensures WithNoteRevisions(s, Map(Baseline, s.notes)).Some?
  {
    BaselinesAreComplete(s.notes);
    BaselineResolves(s, Sort(Map(Baseline, s.notes), RevisionKey));
  }

  lemma {:induction false} BaselineResolves(s: Snapshot, sorted: seq<NoteRevision>)
    requires Consistent(s) && sorted == Sort(Map(Baseline, s.notes), RevisionKey)
    ensures Included(s.(revisions := sorted)).Some?
  {
    SortMembers(Map(Baseline, s.notes), RevisionKey);
    forall k | 0 <= k < |sorted|
      ensures RevisionResolves(s.principals, sorted[k])
    {
      assert sorted[k] in Map(Baseline, s.notes);
      var j := MapIndex(Baseline, s.notes, sorted[k]);
      assert NoteResolves(s.principals, s.notes[j]);
    }
    var t := s.(revisions := sorted);
    ReferencesCoverRecords(t);
    IncludeOfResolved(t.principals, PrincipalReferences(t));
  }

  // ---------------------------------------------------------------- owners of historical notes

  function CurrentOwner(s: Snapshot, e: NoteRevision): Option<PrincipalRef> {
    var current := CurrentNote(s.notes, e.note.noteId);
    if current.None? then None else Some(current.value.owner)
  }

  // The owners of historical notes resolve exactly when they agree with the current owners about the
  // primary identity. The builders compare IDs only and do not collect these references.
  lemma {:induction false} HistoricalOwnersResolve(s: Snapshot)
    requires Consistent(s) && Complete(s)
    ensures (forall i | 0 <= i < |s.revisions| :: Resolves(s.principals, s.revisions[i].note.owner))
       <==> forall i | 0 <= i < |s.revisions| ::
              CurrentOwner(s, s.revisions[i]) == Some(s.revisions[i].note.owner)
  {
    forall i | 0 <= i < |s.revisions|
      ensures Resolves(s.principals, s.revisions[i].note.owner)
         <==> CurrentOwner(s, s.revisions[i]) == Some(s.revisions[i].note.owner)
    {
      assert RevisionOk(s.notes, s.revisions, i);
      var k := CurrentNoteFinds(s.notes, s.revisions[i].note.noteId);
      assert NoteResolves(s.principals, s.notes[k]);
    }
  }

  // A history whose first entry names another primary identity for the owner's ID is accepted, and
  // that owner does not resolve.
  lemma {:induction false} HistoricalOwnerMayBeUndeclared(n: Note, other: Identity)
    requires n.revision == 2 && n.review.Untracked? && other != n.owner.primary
    ensures var first := NoteRevision(n.(revision := 1, owner := PrincipalRef(n.owner.id, other)), n.owner, Created);
            && New([n], []).Some?
            && var s := WithNoteRevisions(New([n], []).value, [first, Baseline(n)]);
               s.Some? && s.value.revisions[0] == first && !Resolves(s.value.principals, first.note.owner)
  {
    var first := NoteRevision(n.(revision := 1, owner := PrincipalRef(n.owner.id, other)), n.owner, Created);
    NewOfOne(n);
    var s := New([n], []).value;
    var revisions := [first, Baseline(n)];
    TwoRevisionsAreSorted(first, Baseline(n));
    assert CurrentNote([n], n.noteId) == Some(n);
    TwoOfNote(first, Baseline(n));
    var t := s.(revisions := revisions);
    assert RevisionsOk([n], revisions) by {
      assert RevisionOk([n], revisions, 0) && RevisionOk([n], revisions, 1);
    }
    assert HistoryOk(revisions, n);
    ReferencesCoverRecords(t);
    IncludeOfResolved(t.principals, PrincipalReferences(t));
  }

  lemma {:induction false} NewOfOne(n: Note)
    requires n.review.Untracked?
    ensures New([n], []) == Some(Snapshot([Single(n.owner)], [n], [Baseline(n)], [], [], []))
  {
    var s := Snapshot([], [n], [Baseline(n)], [], [], []);
    assert Map(Baseline, [n]) == [Baseline(n)];
    assert NoteReferences([n]) == [n.owner];
    assert RevisionReferences([Baseline(n)]) == [n.owner];
    assert PrincipalReferences(s) == [n.owner, n.owner];
    var rest := [n.owner, n.owner][1..];
    assert rest == [n.owner] && rest[1..] == [];
    assert [] + [Single(n.owner)] == [Single(n.owner)];
    assert Include([Single(n.owner)], rest) == Include([Single(n.owner)], rest[1..]);
  }

  lemma {:induction false} TwoRevisionsAreSorted(a: NoteRevision, b: NoteRevision)
    requires a.note.noteId == b.note.noteId && a.note.revision <= b.note.revision
    ensures Sort([a, b], RevisionKey) == [a, b]
  {
    assert [a, b][1..] == [b] && [b][1..] == [];
    var x, y := RevisionKey(a), RevisionKey(b);
    assert x[0] == y[0];
    assert x[1..] == [[a.note.revision]] && y[1..] == [[b.note.revision]];
    assert ComponentLe([a.note.revision], [b.note.revision]) by {
      assert [a.note.revision][1..] == [] && [b.note.revision][1..] == [];
    }
    assert KeyLe(x[1..], y[1..]) by {
      assert x[1..][1..] == [] && y[1..][1..] == [];
    }
    assert KeyLe(x, y);
    SortOfSorted([a, b], RevisionKey);
  }

  lemma {:induction false} TwoOfNote(a: NoteRevision, b: NoteRevision)
    requires a.note.noteId == b.note.noteId
    ensures History([a, b], a.note.noteId) == [a, b]
  {
    assert [a, b][1..] == [b] && [b][1..] == [];
    FilterCons(OfNote(a.note.noteId), a, [b]);
    FilterCons(OfNote(a.note.noteId), b, []);
  }
}
