// Exactly which lists the builders of a snapshot accept, stated on the records themselves, in any order
// (crates/marginalis-application/src/snapshot.rs).
module SnapshotAcceptance {
  import opened Options
  import opened Domain
  import opened Sequences
  import opened Sorting
  import opened Flattening
  import opened TextOrder
  import opened Principals
  import opened Snapshots
  import opened SnapshotHistory

  // ---------------------------------------------------------------- principals that records name

  predicate ReviewNames(n: Note, r: PrincipalRef) {
    n.review.Tracked? && n.review.last.Some? && n.review.last.value.reviewer == r
  }

  // The owner or the reviewer of a note, who made a revision or reviewed it, who added an attachment, or who was
  // granted access.
  predicate Names(s: Snapshot, r: PrincipalRef) {
    || (exists i | 0 <= i < |s.notes| :: s.notes[i].owner == r || ReviewNames(s.notes[i], r))
    || (exists i | 0 <= i < |s.revisions| :: s.revisions[i].changedBy == r || ReviewNames(s.revisions[i].note, r))
    || (exists i | 0 <= i < |s.attachments| :: s.attachments[i].createdBy == r)
    || (exists i | 0 <= i < |s.acl| :: s.acl[i].principal == r)
  }

  lemma {:induction false} NoteReferencesAre(notes: seq<Note>, r: PrincipalRef)
    ensures r in NoteReferences(notes)
            <==> exists i | 0 <= i < |notes| :: notes[i].owner == r || ReviewNames(notes[i], r)
  {
    if notes != [] {
      NoteReferencesAre(notes[1..], r);
      assert forall i | 0 < i < |notes| :: notes[i] == notes[1..][i - 1];
    }
  }

  lemma {:induction false} RevisionReferencesAre(revisions: seq<NoteRevision>, r: PrincipalRef)
    ensures r in RevisionReferences(revisions)
            <==> exists i | 0 <= i < |revisions| :: revisions[i].changedBy == r || ReviewNames(revisions[i].note, r)
  {
    if revisions != [] {
      RevisionReferencesAre(revisions[1..], r);
      assert forall i | 0 < i < |revisions| :: revisions[i] == revisions[1..][i - 1];
    }
  }

  lemma {:induction false} MappedAre<T, B>(f: T -> B, s: seq<T>, y: B)
    ensures y in Map(f, s) <==> exists i | 0 <= i < |s| :: f(s[i]) == y
  {
    forall i | 0 <= i < |s| && f(s[i]) == y
      ensures y in Map(f, s)
    {
      assert Map(f, s)[i] == y;
    }
  }

  lemma {:induction false} ReferencesAreNamed(s: Snapshot, r: PrincipalRef)
    ensures r in PrincipalReferences(s) <==> Names(s, r)
  {
    NoteReferencesAre(s.notes, r);
    RevisionReferencesAre(s.revisions, r);
    MappedAre(CreatorOf, s.attachments, r);
    MappedAre(GranteeOf, s.acl, r);
  }

  // Declared principals and the principals that records name agree about who has which ID and which identity.
  ghost predicate ClaimsAgree(principals: seq<Principal>, s: Snapshot) {
    && (forall i, r | 0 <= i < |principals| && Names(s, r) ::
          && (principals[i].id == r.id ==> principals[i].primary == r.primary)
          && (r.primary in principals[i].identities ==> principals[i].id == r.id))
    && forall r, q | Names(s, r) && Names(s, q) :: r.id == q.id <==> r.primary == q.primary
  }

  lemma {:induction false} CompatibleIffClaimsAgree(principals: seq<Principal>, s: Snapshot)
    ensures Compatible(principals, PrincipalReferences(s)) <==> ClaimsAgree(principals, s)
  {
    var references := PrincipalReferences(s);
    forall r
      ensures r in references <==> Names(s, r)
    {
      ReferencesAreNamed(s, r);
    }
    if ClaimsAgree(principals, s) {
      ClaimsMakeCompatible(principals, s, references);
    }
    if Compatible(principals, references) {
      CompatibleMakesClaims(principals, s, references);
    }
  }

  lemma {:induction false} ClaimsMakeCompatible(principals: seq<Principal>, s: Snapshot, references: seq<PrincipalRef>)
    requires ClaimsAgree(principals, s) && forall r | r in references :: Names(s, r)
    ensures Compatible(principals, references)
  {
    forall j | 0 <= j < |references|
      ensures Names(s, references[j])
    {
      assert references[j] in references;
    }
  }

  lemma {:induction false} CompatibleMakesClaims(principals: seq<Principal>, s: Snapshot, references: seq<PrincipalRef>)
    requires Compatible(principals, references) && forall r | Names(s, r) :: r in references
    ensures ClaimsAgree(principals, s)
  {
    forall i, r | 0 <= i < |principals| && Names(s, r)
      ensures Agrees(principals[i], r)
    {
      var j :| 0 <= j < |references| && references[j] == r;
    }
    forall r, q | Names(s, r) && Names(s, q)
      ensures r.id == q.id <==> r.primary == q.primary
    {
      var j :| 0 <= j < |references| && references[j] == r;
      var k :| 0 <= k < |references| && references[k] == q;
    }
  }

  // Including succeeds exactly when the claims agree, and then changes the principals only: those that records name
  // and that were not declared are appended.
  lemma {:induction false} IncludedIff(s: Snapshot)
    requires Declared(s.principals)
    ensures Included(s).Some? <==> ClaimsAgree(s.principals, s)
    ensures Included(s).Some? ==>
              && s.principals <= Included(s).value.principals
              && Included(s).value == s.(principals := Included(s).value.principals)
              && forall p | p in Included(s).value.principals ::
                   p in s.principals || exists r | Names(s, r) :: p == Principal(r.id, r.primary, [r.primary])
  {
    var references := PrincipalReferences(s);
    CompatibleIffClaimsAgree(s.principals, s);
    IncludeSucceeds(s.principals, references);
    if Included(s).Some? {
      IncludeResolves(s.principals, references);
      IncludeAppendsNamed(s.principals, references);
      forall p | p in Included(s).value.principals && p !in s.principals
        ensures exists r | Names(s, r) :: p == Principal(r.id, r.primary, [r.primary])
      {
        var r :| r in references && p == Single(r);
        ReferencesAreNamed(s, r);
      }
    }
  }

  lemma {:induction false} IncludeAppendsNamed(principals: seq<Principal>, references: seq<PrincipalRef>)
    requires Include(principals, references).Some?
    ensures forall p | p in Include(principals, references).value ::
              p in principals || exists r | r in references :: p == Single(r)
    decreases |references|
  {
    if references != [] {
      var r := references[0];
      var start := if Find(principals, r.id).Some? then principals else principals + [Single(r)];
      IncludeAppendsNamed(start, references[1..]);
      forall p | p in Include(principals, references).value && p !in principals
        ensures exists q | q in references :: p == Single(q)
      {
        if p in start {
          assert p == Single(r);
        } else {
          var q :| q in references[1..] && p == Single(q);
          assert q in references;
        }
      }
    }
  }

  // ---------------------------------------------------------------- notes and access lists

  // No two notes share an ID.
  predicate DistinctNotes(notes: seq<Note>) {
    forall i, j | 0 <= i < j < |notes| :: notes[i].noteId != notes[j].noteId
  }

  // Each entry is about a note and somebody else than its owner, and no two are about the same note and principal.
  predicate GoodAcl(notes: seq<Note>, acl: seq<NoteAcl>) {
    && (forall e | e in acl :: exists n | n in notes :: n.noteId == e.noteId && n.owner.id != e.principal.id)
    && forall i, j | 0 <= i < j < |acl| :: acl[i].noteId != acl[j].noteId || acl[i].principal.id != acl[j].principal.id
  }

  lemma {:induction false} NotesOkIff(notes: seq<Note>)
    ensures NotesOk(notes) <==> DistinctNotes(notes)
  {
    if NotesOk(notes) {
      forall i, j | 0 <= i < j < |notes|
        ensures notes[i].noteId != notes[j].noteId
      {
        assert NoteOk(notes, j);
      }
    }
  }

  // The current note of an ID is the note with it.
  lemma {:induction false} CurrentNoteIs(notes: seq<Note>, noteId: string, n: Note)
    requires NotesOk(notes)
    ensures CurrentNote(notes, noteId) == Some(n) <==> n in notes && n.noteId == noteId
  {
    var i := CurrentNoteFinds(notes, noteId);
    if n in notes && n.noteId == noteId {
      var j :| 0 <= j < |notes| && notes[j] == n;
      CurrentNoteAt(notes, j);
    }
  }

  lemma {:induction false} AclsOkIff(notes: seq<Note>, acl: seq<NoteAcl>)
    requires NotesOk(notes)
    ensures AclsOk(notes, acl) <==> GoodAcl(notes, acl)
  {
    forall i | 0 <= i < |acl|
      ensures (CurrentNote(notes, acl[i].noteId).Some?
               && acl[i].principal.id != CurrentNote(notes, acl[i].noteId).value.owner.id)
              <==> exists n | n in notes :: n.noteId == acl[i].noteId && n.owner.id != acl[i].principal.id
    {
      forall n
        ensures CurrentNote(notes, acl[i].noteId) == Some(n) <==> n in notes && n.noteId == acl[i].noteId
      {
        CurrentNoteIs(notes, acl[i].noteId, n);
      }
    }
    if AclsOk(notes, acl) {
      forall e | e in acl
        ensures exists n | n in notes :: n.noteId == e.noteId && n.owner.id != e.principal.id
      {
        var i :| 0 <= i < |acl| && acl[i] == e;
        assert AclOk(notes, acl, i);
      }
      forall i, j | 0 <= i < j < |acl|
        ensures acl[i].noteId != acl[j].noteId || acl[i].principal.id != acl[j].principal.id
      {
        assert AclOk(notes, acl, j);
      }
    } else if GoodAcl(notes, acl) {
      forall i | 0 <= i < |acl|
        ensures AclOk(notes, acl, i)
      {
        assert acl[i] in acl;
      }
    }
  }

  // A snapshot is made of notes and access lists exactly when these are good and the claims agree; it has them, and
  // for each note its current revision as an import by its owner, and no attachments.
  lemma {:induction false} NewSucceedsIff(notes: seq<Note>, acl: seq<NoteAcl>)
    ensures New(notes, acl).Some?
            <==> && DistinctNotes(notes) && GoodAcl(notes, acl)
                 && ClaimsAgree([], Snapshot([], notes, Map(Baseline, notes), [], [], acl))
    ensures New(notes, acl).Some? ==>
              var s := New(notes, acl).value;
              && s.notes == notes && s.acl == acl && s.attachments == [] && s.references == []
              && |s.revisions| == |notes|
              && forall i | 0 <= i < |notes| :: s.revisions[i] == NoteRevision(notes[i], notes[i].owner, Imported)
  {
    NotesOkIff(notes);
    if NotesOk(notes) {
      AclsOkIff(notes, acl);
      IncludedIff(Snapshot([], notes, Map(Baseline, notes), [], [], acl));
    }
  }

  // ---------------------------------------------------------------- histories

  // The same record, when principals are told apart by their IDs only.
  predicate SameRecord(m: Note, n: Note) {
    && m.noteId == n.noteId && m.owner.id == n.owner.id && m.title == n.title && m.source == n.source
    && m.tags == n.tags && m.createdAt == n.createdAt && m.updatedAt == n.updatedAt && m.revision == n.revision
    && m.deletedAt == n.deletedAt && m.createdVia == n.createdVia
    && match (m.review, n.review)
       case (Tracked(Some(r)), Tracked(Some(q))) =>
         r.revision == q.revision && r.reviewedAt == q.reviewedAt && r.reviewer.id == q.reviewer.id
       case _ => m.review == n.review
  }

  lemma {:induction false} ByIdMeans(m: Note, n: Note)
    ensures ById(m) == ById(n) <==> SameRecord(m, n)
  {
  }

  // A revision of an existing note that agrees with it about what never changes.
  predicate BelongsTo(e: NoteRevision, n: Note) {
    && e.note.noteId == n.noteId && e.note.owner.id == n.owner.id && e.note.createdAt == n.createdAt
    && e.note.createdVia == n.createdVia && e.note.revision <= n.revision
  }

  predicate HasRevision(revisions: seq<NoteRevision>, noteId: string, revision: int) {
    exists i | 0 <= i < |revisions| :: revisions[i].note.noteId == noteId && revisions[i].note.revision == revision
  }

  // The current revision is there as it is, and the revisions are all from some first one up to it.
  ghost predicate GoodHistory(revisions: seq<NoteRevision>, n: Note) {
    && (exists e | e in revisions :: SameRecord(e.note, n))
    && exists first | first <= n.revision :: RevisionsAre(revisions, n, first)
  }

  ghost predicate RevisionsAre(revisions: seq<NoteRevision>, n: Note, first: int) {
    forall k: int :: HasRevision(revisions, n.noteId, k) <==> first <= k <= n.revision
  }

  // No two revisions share note and number, each belongs to a note, and each note has a good history.
  ghost predicate GoodRevisions(notes: seq<Note>, revisions: seq<NoteRevision>) {
    && DistinctRevisions(revisions)
    && (forall e | e in revisions :: exists n | n in notes :: BelongsTo(e, n))
    && forall n | n in notes :: GoodHistory(revisions, n)
  }

  lemma {:induction false} RevisionKeysDiffer(e: NoteRevision, f: NoteRevision)
    ensures RevisionKey(e) == RevisionKey(f)
            <==> e.note.noteId == f.note.noteId && e.note.revision == f.note.revision
  {
    if RevisionKey(e) == RevisionKey(f) {
      assert RevisionKey(e)[0] == RevisionKey(f)[0] && RevisionKey(e)[1][0] == RevisionKey(f)[1][0];
      PointsInjective(e.note.noteId, f.note.noteId);
    }
  }

  predicate DistinctRevisions(revisions: seq<NoteRevision>) {
    forall i, j | 0 <= i < j < |revisions| ::
      revisions[i].note.noteId != revisions[j].note.noteId || revisions[i].note.revision != revisions[j].note.revision
  }

  lemma {:induction false} DistinctMeansUniqueKeys(revisions: seq<NoteRevision>)
    ensures DistinctRevisions(revisions) <==> UniqueKeys(revisions, RevisionKey)
  {
    forall i, j | 0 <= i < j < |revisions|
      ensures RevisionKey(revisions[i]) == RevisionKey(revisions[j])
              <==> revisions[i].note.noteId == revisions[j].note.noteId
                   && revisions[i].note.revision == revisions[j].note.revision
    {
      RevisionKeysDiffer(revisions[i], revisions[j]);
    }
  }

  lemma {:induction false} RevisionsOkIff(notes: seq<Note>, revisions: seq<NoteRevision>)
    requires NotesOk(notes)
    ensures RevisionsOk(notes, revisions)
            <==> && DistinctRevisions(revisions)
                 && forall e | e in revisions :: exists n | n in notes :: BelongsTo(e, n)
  {
    forall e | e in revisions
      ensures (CurrentNote(notes, e.note.noteId).Some? && BelongsTo(e, CurrentNote(notes, e.note.noteId).value))
              <==> exists n | n in notes :: BelongsTo(e, n)
    {
      forall n
        ensures CurrentNote(notes, e.note.noteId) == Some(n) <==> n in notes && n.noteId == e.note.noteId
      {
        CurrentNoteIs(notes, e.note.noteId, n);
      }
    }
    if RevisionsOk(notes, revisions) {
      forall i, j | 0 <= i < j < |revisions|
        ensures revisions[i].note.noteId != revisions[j].note.noteId
                || revisions[i].note.revision != revisions[j].note.revision
      {
        assert RevisionOk(notes, revisions, j);
      }
      forall e | e in revisions
        ensures exists n | n in notes :: BelongsTo(e, n)
      {
        var i :| 0 <= i < |revisions| && revisions[i] == e;
        assert RevisionOk(notes, revisions, i);
        CurrentNoteIs(notes, e.note.noteId, CurrentNote(notes, e.note.noteId).value);
        assert BelongsTo(e, CurrentNote(notes, e.note.noteId).value);
      }
    } else if DistinctRevisions(revisions) && forall e | e in revisions :: exists n | n in notes :: BelongsTo(e, n) {
      forall i | 0 <= i < |revisions|
        ensures RevisionOk(notes, revisions, i)
      {
        assert revisions[i] in revisions;
      }
    }
  }

  // Of a history without repetitions that is sorted, revisions grow.
  lemma {:induction false} HistoryGrows(history: seq<NoteRevision>, noteId: string, i: nat, j: nat)
    requires IsSorted(history, RevisionKey) && DistinctRevisions(history) && i < j < |history|
    requires forall e | e in history :: e.note.noteId == noteId
    ensures history[i].note.revision < history[j].note.revision
  {
    var e, f := history[i], history[j];
    assert e in history && f in history;
    SortedAt(history, RevisionKey, i, j);
    RevisionKeysDiffer(e, f);
    assert RevisionKey(e)[0] == RevisionKey(f)[0];
    assert KeyLe([[e.note.revision]], [[f.note.revision]]) by {
      assert RevisionKey(e)[1..] == [[e.note.revision]] && RevisionKey(f)[1..] == [[f.note.revision]];
    }
    NumberKey(e.note.revision, f.note.revision);
  }

  // The entries are about the note and have growing revisions up to the current one.
  predicate GrowsTo(history: seq<NoteRevision>, n: Note) {
    && (forall i, j | 0 <= i < j < |history| :: history[i].note.revision < history[j].note.revision)
    && forall i | 0 <= i < |history| :: history[i].note.noteId == n.noteId && history[i].note.revision <= n.revision
  }

  // A sorted history is gap-free and ends with the current note exactly when it is good.
  lemma {:induction false} HistoryOkIff(history: seq<NoteRevision>, n: Note)
    requires IsSorted(history, RevisionKey) && DistinctRevisions(history)
    requires forall e | e in history :: e.note.noteId == n.noteId && e.note.revision <= n.revision
    ensures HistoryOk(history, n) <==> GoodHistory(history, n)
  {
    forall i, j | 0 <= i < j < |history|
      ensures history[i].note.revision < history[j].note.revision
    {
      HistoryGrows(history, n.noteId, i, j);
    }
    assert forall i | 0 <= i < |history| :: history[i] in history;
    if HistoryOk(history, n) {
      OkHistoryIsGood(history, n);
    } else if GoodHistory(history, n) {
      GoodHistoryIsOk(history, n);
    }
  }

  lemma {:induction false} OkHistoryIsGood(history: seq<NoteRevision>, n: Note)
    requires HistoryOk(history, n) && GrowsTo(history, n)
    ensures GoodHistory(history, n)
  {
    var last, first := |history| - 1, history[0].note.revision;
    ByIdMeans(history[last].note, n);
    assert history[last] in history;
    forall k: int
      ensures HasRevision(history, n.noteId, k) <==> first <= k <= n.revision
    {
      GapFreeCounts(history, last);
      if first <= k <= n.revision {
        GapFreeCounts(history, k - first);
        assert history[k - first].note.revision == k;
      }
    }
    assert RevisionsAre(history, n, first);
  }

  lemma {:induction false} GoodHistoryIsOk(history: seq<NoteRevision>, n: Note)
    requires GoodHistory(history, n) && GrowsTo(history, n)
    ensures HistoryOk(history, n)
  {
    var e :| e in history && SameRecord(e.note, n);
    ByIdMeans(e.note, n);
    var k :| 0 <= k < |history| && history[k] == e;
    CurrentIsLast(history, n, k);
    var first :| first <= n.revision && RevisionsAre(history, n, first);
    forall i | 0 < i < |history|
      ensures history[i].note.revision == history[i - 1].note.revision + 1
    {
      NextFollows(history, n, first, i);
    }
  }

  lemma {:induction false} CurrentIsLast(history: seq<NoteRevision>, n: Note, k: nat)
    requires GrowsTo(history, n) && k < |history| && history[k].note.revision == n.revision
    ensures k == |history| - 1
  {
    assert history[|history| - 1].note.revision <= n.revision;
  }

  lemma {:induction false} NextFollows(history: seq<NoteRevision>, n: Note, first: int, i: nat)
    requires RevisionsAre(history, n, first) && GrowsTo(history, n) && 0 < i < |history|
    ensures history[i].note.revision == history[i - 1].note.revision + 1
  {
    var before := i - 1;
    assert history[before].note.revision < history[i].note.revision;
    assert HasRevision(history, n.noteId, history[before].note.revision);
    assert HasRevision(history, n.noteId, history[i - 1].note.revision + 1);
    var m :| 0 <= m < |history| && history[m].note.revision == history[i - 1].note.revision + 1;
    assert m == i;
  }

  lemma {:induction false} HistoriesOkIff(notes: seq<Note>, revisions: seq<NoteRevision>)
    requires NotesOk(notes) && RevisionsOk(notes, Sort(revisions, RevisionKey))
    ensures HistoriesOk(notes, Sort(revisions, RevisionKey)) <==> forall n | n in notes :: GoodHistory(revisions, n)
  {
    var sorted := Sort(revisions, RevisionKey);
    forall i | 0 <= i < |notes|
      ensures HistoryOk(History(sorted, notes[i].noteId), notes[i]) <==> GoodHistory(revisions, notes[i])
    {
      HistoryOfNote(notes, revisions, notes[i]);
    }
    assert forall i | 0 <= i < |notes| :: notes[i] in notes;
  }

  lemma {:induction false} HistoryOfNote(notes: seq<Note>, revisions: seq<NoteRevision>, n: Note)
    requires NotesOk(notes) && n in notes && RevisionsOk(notes, Sort(revisions, RevisionKey))
    ensures HistoryOk(History(Sort(revisions, RevisionKey), n.noteId), n) <==> GoodHistory(revisions, n)
  {
    var sorted := Sort(revisions, RevisionKey);
    var history, mine := History(sorted, n.noteId), Filter(OfNote(n.noteId), revisions);
    SortFilters(OfNote(n.noteId), revisions, RevisionKey);
    SortSorts(mine, RevisionKey);
    SortMembers(mine, RevisionKey);
    FilterMembers(OfNote(n.noteId), revisions);
    RevisionsOkIff(notes, sorted);
    DistinctMeansUniqueKeys(sorted);
    FilterKeepsUnique(OfNote(n.noteId), sorted, RevisionKey);
    DistinctMeansUniqueKeys(history);
    SortMembers(revisions, RevisionKey);
    forall e | e in history
      ensures e.note.noteId == n.noteId && e.note.revision <= n.revision
    {
      assert e in sorted;
      var m :| m in notes && BelongsTo(e, m);
      CurrentNoteIs(notes, n.noteId, m);
      CurrentNoteIs(notes, n.noteId, n);
    }
    HistoryOkIff(history, n);
    SameGoodness(history, revisions, n);
  }

  lemma {:induction false} SameGoodness(history: seq<NoteRevision>, revisions: seq<NoteRevision>, n: Note)
    requires forall e :: e in history <==> e in revisions && e.note.noteId == n.noteId
    ensures GoodHistory(history, n) <==> GoodHistory(revisions, n)
  {
    forall k: int
      ensures HasRevision(history, n.noteId, k) <==> HasRevision(revisions, n.noteId, k)
    {
      if HasRevision(history, n.noteId, k) {
        var i :| 0 <= i < |history| && history[i].note.noteId == n.noteId && history[i].note.revision == k;
        assert history[i] in revisions;
      }
      if HasRevision(revisions, n.noteId, k) {
        var i :| 0 <= i < |revisions| && revisions[i].note.noteId == n.noteId && revisions[i].note.revision == k;
        assert revisions[i] in history;
      }
    }
    assert forall first :: RevisionsAre(history, n, first) <==> RevisionsAre(revisions, n, first);
    assert (exists e | e in history :: SameRecord(e.note, n)) <==> (exists e | e in revisions :: SameRecord(e.note, n));
  }

  lemma {:induction false} SortedRevisionsOk(notes: seq<Note>, revisions: seq<NoteRevision>)
    requires NotesOk(notes)
    ensures RevisionsOk(notes, Sort(revisions, RevisionKey))
            <==> && DistinctRevisions(revisions)
                 && forall e | e in revisions :: exists n | n in notes :: BelongsTo(e, n)
  {
    var sorted := Sort(revisions, RevisionKey);
    RevisionsOkIff(notes, sorted);
    SortMembers(revisions, RevisionKey);
    UniqueKeysOfSort(revisions, RevisionKey);
    DistinctMeansUniqueKeys(revisions);
    DistinctMeansUniqueKeys(sorted);
  }

  lemma {:induction false} SortedHistoriesOk(notes: seq<Note>, revisions: seq<NoteRevision>)
    requires NotesOk(notes)
    ensures var sorted := Sort(revisions, RevisionKey);
            RevisionsOk(notes, sorted) && HistoriesOk(notes, sorted) <==> GoodRevisions(notes, revisions)
  {
    SortedRevisionsOk(notes, revisions);
    if RevisionsOk(notes, Sort(revisions, RevisionKey)) {
      HistoriesOkIff(notes, revisions);
    }
  }

  lemma {:induction false} ClaimsOfSorted(s: Snapshot, revisions: seq<NoteRevision>)
    ensures ClaimsAgree(s.principals, s.(revisions := Sort(revisions, RevisionKey)))
            <==> ClaimsAgree(s.principals, s.(revisions := revisions))
  {
    SortMembers(revisions, RevisionKey);
    SameNames(s.(revisions := Sort(revisions, RevisionKey)), s.(revisions := revisions));
  }

  // Histories are accepted exactly when they are good and the claims agree; they replace the histories of the
  // snapshot, whatever their order.
  lemma {:induction false} WithNoteRevisionsSucceedsIff(s: Snapshot, revisions: seq<NoteRevision>)
    requires Declared(s.principals) && NotesOk(s.notes)
    ensures WithNoteRevisions(s, revisions).Some?
            <==> GoodRevisions(s.notes, revisions) && ClaimsAgree(s.principals, s.(revisions := revisions))
    ensures WithNoteRevisions(s, revisions).Some? ==>
              var t := WithNoteRevisions(s, revisions).value;
              && multiset(t.revisions) == multiset(revisions)
              && t == s.(revisions := t.revisions, principals := t.principals)
  {
    SortPermutes(revisions, RevisionKey);
    SortedHistoriesOk(s.notes, revisions);
    IncludedIff(s.(revisions := Sort(revisions, RevisionKey)));
    ClaimsOfSorted(s, revisions);
  }

  // Who is named depends on which records there are only.
  lemma {:induction false} SameNames(s: Snapshot, t: Snapshot)
    requires s.notes == t.notes && s.acl == t.acl
    requires forall e :: e in s.revisions <==> e in t.revisions
    requires forall a :: a in s.attachments <==> a in t.attachments
    ensures forall r :: Names(s, r) <==> Names(t, r)
  {
    forall r
      ensures Names(s, r) <==> Names(t, r)
    {
      assert forall i | 0 <= i < |s.revisions| :: s.revisions[i] in s.revisions && s.revisions[i] in t.revisions;
      assert forall i | 0 <= i < |t.revisions| :: t.revisions[i] in t.revisions && t.revisions[i] in s.revisions;
      assert forall i | 0 <= i < |s.attachments| :: s.attachments[i] in s.attachments
                                                    && s.attachments[i] in t.attachments;
      assert forall i | 0 <= i < |t.attachments| :: t.attachments[i] in t.attachments
                                                    && t.attachments[i] in s.attachments;
    }
  }

  // ---------------------------------------------------------------- attachments

  // What the attachments of a note weigh together.
  function TotalBytes(attachments: seq<StoredAttachment>, noteId: string): nat {
    if attachments == [] then 0
    else (if attachments[0].noteId == noteId then |attachments[0].bytes| else 0) + TotalBytes(attachments[1..], noteId)
  }

  function OfNoteId(noteId: string): StoredAttachment -> bool {
    (a: StoredAttachment) => a.noteId == noteId
  }

  // At most 32 attachments and 64 MiB for each note.
  predicate KeepsQuota(attachments: seq<StoredAttachment>, noteId: string) {
    |Filter(OfNoteId(noteId), attachments)| <= 32 && TotalBytes(attachments, noteId) <= 67108864
  }

  // No two attachments share an ID, each belongs to a note and was added by a declared principal, and no note has
  // more than its quota.
  ghost predicate GoodAttachments(s: Snapshot, attachments: seq<StoredAttachment>) {
    && (forall i, j | 0 <= i < j < |attachments| :: attachments[i].attachmentId != attachments[j].attachmentId)
    && (forall a | a in attachments ::
          && (exists n | n in s.notes :: n.noteId == a.noteId)
          && exists p | p in s.principals :: p.id == a.createdBy.id)
    && forall noteId :: KeepsQuota(attachments, noteId)
  }

  // No two references are equal, and each names a revision and an attachment of one note.
  predicate GoodReferences(s: Snapshot, attachments: seq<StoredAttachment>, references: seq<AttachmentReference>) {
    && (forall i, j | 0 <= i < j < |references| :: references[i] != references[j])
    && forall r | r in references ::
         && (exists e | e in s.revisions :: e.note.noteId == r.noteId && e.note.revision == r.revision)
         && exists a | a in attachments :: a.attachmentId == r.attachmentId && a.noteId == r.noteId
  }

  lemma {:induction false} TotalBytesAppends(attachments: seq<StoredAttachment>, a: StoredAttachment, noteId: string)
    ensures TotalBytes(attachments + [a], noteId)
            == TotalBytes(attachments, noteId) + if a.noteId == noteId then |a.bytes| else 0
  {
    if attachments == [] {
      assert attachments + [a] == [a] && [a][1..] == [];
    } else {
      assert (attachments + [a])[1..] == attachments[1..] + [a];
      TotalBytesAppends(attachments[1..], a, noteId);
    }
  }

  lemma {:induction false} TotalsAreCounts(attachments: seq<StoredAttachment>, noteId: string)
    ensures Count(attachments, noteId) == |Filter(OfNoteId(noteId), attachments)|
    ensures Bytes(attachments, noteId) == TotalBytes(attachments, noteId)
  {
    if attachments != [] {
      var last := |attachments| - 1;
      var front, a := attachments[..last], attachments[last];
      assert attachments == front + [a];
      TotalsAreCounts(front, noteId);
      TotalBytesAppends(front, a, noteId);
      FilterAppend(OfNoteId(noteId), front, a);
    }
  }

  lemma {:induction false} HeadOut<T>(a: seq<T>)
    requires a != []
    ensures multiset(a) == multiset{a[0]} + multiset(a[1..])
  {
    assert a == [a[0]] + a[1..];
  }

  lemma {:induction false} MiddleOut<T>(b: seq<T>, j: nat)
    requires j < |b|
    ensures multiset(b) == multiset{b[j]} + multiset(b[..j] + b[j + 1..])
  {
    assert b == b[..j] + [b[j]] + b[j + 1..];
  }

  lemma {:induction false} RestPermutes<T>(a: seq<T>, b: seq<T>, j: nat)
    requires multiset(a) == multiset(b) && a != [] && j < |b| && b[j] == a[0]
    ensures multiset(a[1..]) == multiset(b[..j] + b[j + 1..])
  {
    HeadOut(a);
    MiddleOut(b, j);
    Cancel(a[0], multiset(a[1..]), multiset(b[..j] + b[j + 1..]));
  }

  lemma {:induction false} BytesOfPermutation(a: seq<StoredAttachment>, b: seq<StoredAttachment>, noteId: string)
    requires multiset(a) == multiset(b)
    ensures TotalBytes(a, noteId) == TotalBytes(b, noteId)
    decreases |a|
  {
    PermutationMembers(a, b);
    if a != [] {
      assert a[0] in b;
      var j :| 0 <= j < |b| && b[j] == a[0];
      RestPermutes(a, b, j);
      BytesOfPermutation(a[1..], b[..j] + b[j + 1..], noteId);
      BytesWithout(b, j, noteId);
    }
  }

  lemma {:induction false} BytesWithout(b: seq<StoredAttachment>, j: nat, noteId: string)
    requires j < |b|
    ensures TotalBytes(b, noteId)
            == (if b[j].noteId == noteId then |b[j].bytes| else 0) + TotalBytes(b[..j] + b[j + 1..], noteId)
  {
    if j == 0 {
      assert b[..0] + b[1..] == b[1..];
    } else {
      BytesWithout(b[1..], j - 1, noteId);
      assert (b[..j] + b[j + 1..])[1..] == b[1..][..j - 1] + b[1..][j..];
    }
  }

  lemma {:induction false} TotalsOfPermutation(a: seq<StoredAttachment>, b: seq<StoredAttachment>, noteId: string)
    requires multiset(a) == multiset(b)
    ensures TotalBytes(a, noteId) == TotalBytes(b, noteId)
    ensures |Filter(OfNoteId(noteId), a)| == |Filter(OfNoteId(noteId), b)|
  {
    BytesOfPermutation(a, b, noteId);
    var x, y := Filter(OfNoteId(noteId), a), Filter(OfNoteId(noteId), b);
    FilterPlaces(OfNoteId(noteId), a);
    FilterPlaces(OfNoteId(noteId), b);
    assert multiset(x) == multiset(y);
    assert |multiset(x)| == |multiset(y)|;
  }

  lemma {:induction false} TotalsSplit(a: seq<StoredAttachment>, b: seq<StoredAttachment>, noteId: string)
    ensures TotalBytes(a + b, noteId) == TotalBytes(a, noteId) + TotalBytes(b, noteId)
    ensures |Filter(OfNoteId(noteId), a + b)| == |Filter(OfNoteId(noteId), a)| + |Filter(OfNoteId(noteId), b)|
  {
    FilterSplits(OfNoteId(noteId), a, b);
    BytesSplit(a, b, noteId);
  }

  lemma {:induction false} BytesSplit(a: seq<StoredAttachment>, b: seq<StoredAttachment>, noteId: string)
    ensures TotalBytes(a + b, noteId) == TotalBytes(a, noteId) + TotalBytes(b, noteId)
  {
    if a == [] {
      assert a + b == b;
    } else {
      assert (a + b)[1..] == a[1..] + b;
      BytesSplit(a[1..], b, noteId);
    }
  }

  lemma {:induction false} QuotaOfParts(attachments: seq<StoredAttachment>, n: nat, noteId: string)
    requires n <= |attachments| && KeepsQuota(attachments, noteId)
    ensures WithinQuota(attachments[..n], noteId)
  {
    assert attachments == attachments[..n] + attachments[n..];
    TotalsSplit(attachments[..n], attachments[n..], noteId);
    TotalsAreCounts(attachments[..n], noteId);
  }

  lemma {:induction false} AttachmentsOkIff(s: Snapshot, attachments: seq<StoredAttachment>)
    ensures AttachmentsOk(s, attachments) <==> GoodAttachments(s, attachments)
  {
    if AttachmentsOk(s, attachments) {
      OkAttachmentsAreGood(s, attachments);
    } else if GoodAttachments(s, attachments) {
      forall i | 0 <= i < |attachments|
        ensures AttachmentOk(s, attachments, i)
      {
        assert attachments[i] in attachments;
        QuotaOfParts(attachments, i + 1, attachments[i].noteId);
      }
    }
  }

  lemma {:induction false} OkAttachmentsAreGood(s: Snapshot, attachments: seq<StoredAttachment>)
    requires AttachmentsOk(s, attachments)
    ensures GoodAttachments(s, attachments)
  {
    forall i, j | 0 <= i < j < |attachments|
      ensures attachments[i].attachmentId != attachments[j].attachmentId
    {
      assert AttachmentOk(s, attachments, j);
    }
    forall a | a in attachments
      ensures exists n | n in s.notes :: n.noteId == a.noteId
      ensures exists p | p in s.principals :: p.id == a.createdBy.id
    {
      var i :| 0 <= i < |attachments| && attachments[i] == a;
      assert AttachmentOk(s, attachments, i);
      var k :| 0 <= k < |s.notes| && s.notes[k].noteId == a.noteId;
      var m :| 0 <= m < |s.principals| && s.principals[m].id == a.createdBy.id;
      assert s.notes[k] in s.notes && s.principals[m] in s.principals;
    }
    AcceptedObjects(s, attachments);
    forall noteId
      ensures KeepsQuota(attachments, noteId)
    {
      TotalsAreCounts(attachments, noteId);
      assert WithinQuota(attachments, noteId);
    }
  }

  lemma {:induction false} ReferencesOkIff(s: Snapshot, attachments: seq<StoredAttachment>,
                                           references: seq<AttachmentReference>)
    ensures ReferencesOk(s, attachments, references) <==> GoodReferences(s, attachments, references)
  {
    forall r | r in references
      ensures IsRevision(s.revisions, r.noteId, r.revision)
              <==> exists e | e in s.revisions :: e.note.noteId == r.noteId && e.note.revision == r.revision
      ensures IsAttachmentOf(attachments, r.attachmentId, r.noteId)
              <==> exists a | a in attachments :: a.attachmentId == r.attachmentId && a.noteId == r.noteId
    {
    }
    if ReferencesOk(s, attachments, references) {
      AcceptedReferences(s, attachments, references);
    } else if GoodReferences(s, attachments, references) {
      forall i | 0 <= i < |references|
        ensures ReferenceOk(s, attachments, references, i)
      {
        assert references[i] in references;
      }
    }
  }

  lemma {:induction false} GoodInAnyOrder(s: Snapshot, a: seq<StoredAttachment>, b: seq<StoredAttachment>)
    requires multiset(a) == multiset(b) && GoodAttachments(s, a)
    ensures GoodAttachments(s, b)
  {
    PermutationMembers(a, b);
    assert UniqueKeys(a, AttachmentIdKey) by {
      forall i, j | 0 <= i < j < |a|
        ensures AttachmentIdKey(a[i]) != AttachmentIdKey(a[j])
      {
        DifferentAttachments(a[i], a[j]);
      }
    }
    UniqueKeysPermute(a, b, AttachmentIdKey);
    forall i, j | 0 <= i < j < |b|
      ensures b[i].attachmentId != b[j].attachmentId
    {
      DifferentAttachments(b[i], b[j]);
    }
    forall noteId
      ensures KeepsQuota(b, noteId)
    {
      TotalsOfPermutation(a, b, noteId);
      assert KeepsQuota(a, noteId);
    }
  }

  lemma {:induction false} ReferenceKeysDiffer(r: AttachmentReference, q: AttachmentReference)
    ensures ReferenceKey(r) == ReferenceKey(q) <==> r == q
  {
    if ReferenceKey(r) == ReferenceKey(q) {
      assert ReferenceKey(r)[0] == ReferenceKey(q)[0] && ReferenceKey(r)[1][0] == ReferenceKey(q)[1][0];
      assert ReferenceKey(r)[2] == ReferenceKey(q)[2];
      PointsInjective(r.noteId, q.noteId);
      PointsInjective(r.attachmentId, q.attachmentId);
    }
  }

  lemma {:induction false} ReferencesInAnyOrder(s: Snapshot, a: seq<StoredAttachment>, b: seq<StoredAttachment>,
                                                r: seq<AttachmentReference>, q: seq<AttachmentReference>)
    requires multiset(a) == multiset(b) && multiset(r) == multiset(q) && GoodReferences(s, a, r)
    ensures GoodReferences(s, b, q)
  {
    PermutationMembers(a, b);
    PermutationMembers(r, q);
    assert UniqueKeys(r, ReferenceKey) by {
      forall i, j | 0 <= i < j < |r|
        ensures ReferenceKey(r[i]) != ReferenceKey(r[j])
      {
        ReferenceKeysDiffer(r[i], r[j]);
      }
    }
    UniqueKeysPermute(r, q, ReferenceKey);
  }

  lemma {:induction false} ClaimsOfStored(s: Snapshot, attachments: seq<StoredAttachment>,
                                          references: seq<AttachmentReference>)
    ensures ClaimsAgree(s.principals, s.(attachments := Sort(attachments, AttachmentIdKey), references := references))
            <==> ClaimsAgree(s.principals, s.(attachments := attachments))
  {
    SortMembers(attachments, AttachmentIdKey);
    SameNames(s.(attachments := Sort(attachments, AttachmentIdKey), references := references),
              s.(attachments := attachments));
  }

  // Attachments and their references are accepted exactly when they are good and the claims agree; they replace
  // those of the snapshot, whatever their order.
  lemma {:induction false} WithAttachmentsSucceedsIff(s: Snapshot, attachments: seq<StoredAttachment>,
                                                      references: seq<AttachmentReference>)
    requires Declared(s.principals)
    ensures WithAttachments(s, attachments, references).Some?
            <==> && GoodAttachments(s, attachments) && GoodReferences(s, attachments, references)
                 && ClaimsAgree(s.principals, s.(attachments := attachments))
    ensures WithAttachments(s, attachments, references).Some? ==>
              var t := WithAttachments(s, attachments, references).value;
              && multiset(t.attachments) == multiset(attachments) && multiset(t.references) == multiset(references)
              && t == s.(attachments := t.attachments, references := t.references, principals := t.principals)
  {
    var a, r := Sort(attachments, AttachmentIdKey), Sort(references, ReferenceKey);
    SortPermutes(attachments, AttachmentIdKey);
    SortPermutes(references, ReferenceKey);
    SortedAttachmentsOk(s, attachments, references);
    IncludedIff(s.(attachments := a, references := r));
    ClaimsOfStored(s, attachments, r);
  }

  lemma {:induction false} SortedAttachmentsOk(s: Snapshot, attachments: seq<StoredAttachment>,
                                               references: seq<AttachmentReference>)
    ensures var a, r := Sort(attachments, AttachmentIdKey), Sort(references, ReferenceKey);
            AttachmentsOk(s, a) && ReferencesOk(s, a, r)
            <==> GoodAttachments(s, attachments) && GoodReferences(s, attachments, references)
  {
    var a, r := Sort(attachments, AttachmentIdKey), Sort(references, ReferenceKey);
    SortPermutes(attachments, AttachmentIdKey);
    SortPermutes(references, ReferenceKey);
    AttachmentsOkIff(s, a);
    ReferencesOkIff(s, a, r);
    if GoodAttachments(s, a) {
      GoodInAnyOrder(s, a, attachments);
    }
    if GoodAttachments(s, attachments) {
      GoodInAnyOrder(s, attachments, a);
    }
    if GoodReferences(s, a, r) {
      ReferencesInAnyOrder(s, a, attachments, r, references);
    }
    if GoodReferences(s, attachments, references) {
      ReferencesInAnyOrder(s, attachments, a, references, r);
    }
  }

  // ---------------------------------------------------------------- principals

  predicate Apart(p: Principal, q: Principal) {
    forall identity | identity in p.identities :: identity !in q.identities
  }

  // IDs are unique, and no identity stands twice, neither under one principal nor under two.
  predicate GoodPrincipals(principals: seq<Principal>) {
    && (forall i, j | 0 <= i < j < |principals| :: principals[i].id != principals[j].id)
    && (forall i | 0 <= i < |principals| :: DistinctIdentities(principals[i].identities))
    && forall i, j | 0 <= i < j < |principals| :: Apart(principals[j], principals[i])
  }

  lemma {:induction false} ApartMeans(p: Principal, q: Principal)
    ensures Apart(p, q) <==> !Shares(p, q)
  {
    assert forall k | 0 <= k < |p.identities| :: p.identities[k] in p.identities;
  }

  lemma {:induction false} PrincipalsOkIff(principals: seq<Principal>)
    ensures PrincipalsOk(principals) <==> GoodPrincipals(principals)
  {
    if PrincipalsOk(principals) {
      forall i, j | 0 <= i < j < |principals|
        ensures principals[i].id != principals[j].id && Apart(principals[j], principals[i])
      {
        assert PrincipalOk(principals, j);
        ApartMeans(principals[j], principals[i]);
      }
      forall i | 0 <= i < |principals|
        ensures DistinctIdentities(principals[i].identities)
      {
        assert PrincipalOk(principals, i);
      }
    } else if GoodPrincipals(principals) {
      forall i | 0 <= i < |principals|
        ensures PrincipalOk(principals, i)
      {
        forall j | 0 <= j < i
          ensures !Shares(principals[i], principals[j]) && principals[j].id != principals[i].id
        {
          ApartMeans(principals[i], principals[j]);
        }
      }
    }
  }

  // Principals are accepted exactly when they are good and everyone whom a record names is among them, with that
  // primary identity; they replace those of the snapshot.
  lemma {:induction false} WithPrincipalsSucceedsIff(s: Snapshot, principals: seq<Principal>)
    ensures WithPrincipals(s, principals).Some?
            <==> && GoodPrincipals(principals)
                 && forall r | Names(s, r) :: exists p | p in principals :: p.id == r.id && p.primary == r.primary
    ensures WithPrincipals(s, principals).Some? ==> WithPrincipals(s, principals).value == s.(principals := principals)
  {
    PrincipalsOkIff(principals);
    if PrincipalsOk(principals) {
      var replaced := s.(principals := principals);
      var references := PrincipalReferences(replaced);
      forall r
        ensures r in references <==> Names(s, r)
        ensures Resolves(principals, r) <==> exists p | p in principals :: p.id == r.id && p.primary == r.primary
      {
        ReferencesAreNamed(replaced, r);
        assert Names(replaced, r) <==> Names(s, r);
        ResolvesMeans(principals, r);
      }
      assert forall i | 0 <= i < |references| :: references[i] in references;
      if AllResolve(principals, references) {
        forall r | Names(s, r)
          ensures Resolves(principals, r)
        {
          var i :| 0 <= i < |references| && references[i] == r;
        }
      }
    }
  }

  lemma {:induction false} ResolvesMeans(principals: seq<Principal>, r: PrincipalRef)
    requires GoodPrincipals(principals)
    ensures Resolves(principals, r) <==> exists p | p in principals :: p.id == r.id && p.primary == r.primary
  {
    var k := FindFinds(principals, r.id);
    forall p | p in principals && p.id == r.id && p.primary == r.primary
      ensures Resolves(principals, r)
    {
      var j :| 0 <= j < |principals| && principals[j] == p;
    }
  }
}
