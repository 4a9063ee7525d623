// Records with one revision for each note, as an import of documents makes them: when they fit together
// (`with_note_revisions` and `with_attachments` in crates/marginalis-application/src/snapshot.rs).
module SingleRevisions {
  import opened Domain
  import opened Sorting
  import opened Flattening
  import opened Snapshots
  import opened SnapshotHistory
  import opened ArchiveRoundTrip

  // ---------------------------------------------------------------- histories of one revision

  lemma {:induction false} BaselineKeysAreUnique(notes: seq<Note>)
    requires NotesOk(notes)
    ensures UniqueKeys(Map(Baseline, notes), RevisionKey)
  {
    var baseline := Map(Baseline, notes);
    forall i, j | 0 <= i < j < |notes|
      ensures RevisionKey(baseline[i]) != RevisionKey(baseline[j])
    {
      assert NoteOk(notes, j);
      DifferentRevisions(baseline[i], baseline[j]);
    }
  }

  // Whatever order the revisions are given in.
  lemma {:induction false} BaselinesInAnyOrder(notes: seq<Note>, others: seq<Note>)
    requires NotesOk(notes) && multiset(others) == multiset(notes)
    ensures var sorted := Sort(Map(Baseline, others), RevisionKey);
            RevisionsOk(notes, sorted) && HistoriesOk(notes, sorted)
  {
    BaselineKeysAreUnique(notes);
    UniqueKeysIdentify(Map(Baseline, notes), RevisionKey);
    MapOfPermutation(Baseline, notes, others);
    SortOfPermutation(Map(Baseline, notes), Map(Baseline, others), RevisionKey);
    BaselinesAreComplete(notes);
  }

  // ---------------------------------------------------------------- quota of a selection

  lemma {:induction false} CountWithout(attachments: seq<StoredAttachment>, k: nat, noteId: string)
    requires k < |attachments|
    ensures var rest := attachments[..k] + attachments[k + 1..];
            && Count(attachments, noteId) == Count(rest, noteId) + (if attachments[k].noteId == noteId then 1 else 0)
            && Bytes(attachments, noteId) == Bytes(rest, noteId)
                + (if attachments[k].noteId == noteId then |attachments[k].bytes| else 0)
  {
    var last := |attachments| - 1;
    var rest := attachments[..k] + attachments[k + 1..];
    if k == last {
      assert rest == attachments[..last];
    } else {
      CountWithout(attachments[..last], k, noteId);
      assert attachments[..last][..k] + attachments[..last][k + 1..] == rest[..|rest| - 1];
      assert rest[|rest| - 1] == attachments[last];
    }
  }

  // The same attachment, whoever stored it.
  predicate SameFile(x: StoredAttachment, y: StoredAttachment) {
    x.attachmentId == y.attachmentId && x.noteId == y.noteId && x.bytes == y.bytes
  }

  predicate HasSame(all: seq<StoredAttachment>, x: StoredAttachment) {
    exists k | 0 <= k < |all| :: SameFile(x, all[k])
  }

  ghost predicate IsSelection(some: seq<StoredAttachment>, all: seq<StoredAttachment>) {
    && UniqueKeys(some, AttachmentIdKey)
    && forall i | 0 <= i < |some| :: HasSame(all, some[i])
  }

  lemma {:induction false} SelectionWithout(some: seq<StoredAttachment>, all: seq<StoredAttachment>, k: nat)
    requires some != [] && k < |all| && IsSelection(some, all) && SameFile(some[|some| - 1], all[k])
    ensures IsSelection(some[..|some| - 1], all[..k] + all[k + 1..])
  {
    var last := |some| - 1;
    var rest := all[..k] + all[k + 1..];
    var fewer := some[..last];
    forall i | 0 <= i < |fewer|
      ensures HasSame(rest, fewer[i])
    {
      assert HasSame(all, some[i]);
      var m :| 0 <= m < |all| && SameFile(some[i], all[m]);
      DifferentAttachments(some[i], some[last]);
      assert AttachmentIdKey(some[i]) != AttachmentIdKey(some[last]);
      assert m != k;
      assert rest[if m < k then m else m - 1] == all[m];
    }
  }

  // A selection needs no more of the quota than the whole.
  lemma {:induction false} SelectionCountsLess(some: seq<StoredAttachment>, all: seq<StoredAttachment>, noteId: string)
    requires IsSelection(some, all)
    ensures Count(some, noteId) <= Count(all, noteId) && Bytes(some, noteId) <= Bytes(all, noteId)
  {
    if some != [] {
      var last := |some| - 1;
      assert HasSame(all, some[last]);
      var k :| 0 <= k < |all| && SameFile(some[last], all[k]);
      SelectionWithout(some, all, k);
      SelectionCountsLess(some[..last], all[..k] + all[k + 1..], noteId);
      CountWithout(all, k, noteId);
    }
  }

  lemma {:induction false} PrefixIsSelection(some: seq<StoredAttachment>, all: seq<StoredAttachment>, n: nat)
    requires IsSelection(some, all) && n <= |some|
    ensures IsSelection(some[..n], all)
  {
    var prefix := some[..n];
    forall i | 0 <= i < |prefix|
      ensures HasSame(all, prefix[i])
    {
      assert prefix[i] == some[i];
    }
  }

  lemma {:induction false} SelectionIsOk(s: Snapshot, some: seq<StoredAttachment>, all: seq<StoredAttachment>)
    requires IsSelection(some, all) && forall noteId :: WithinQuota(all, noteId)
    requires forall i | 0 <= i < |some| ::
                IsNote(s.notes, some[i].noteId) && IsDeclaredId(s.principals, some[i].createdBy.id)
    ensures AttachmentsOk(s, some)
  {
    forall i | 0 <= i < |some|
      ensures AttachmentOk(s, some, i)
    {
      PrefixIsSelection(some, all, i + 1);
      SelectionCountsLess(some[..i + 1], all, some[i].noteId);
      assert WithinQuota(all, some[i].noteId);
      forall j | 0 <= j < i
        ensures some[j].attachmentId != some[i].attachmentId
      {
        assert AttachmentIdKey(some[j]) != AttachmentIdKey(some[i]);
        DifferentAttachments(some[j], some[i]);
      }
    }
  }

  // ---------------------------------------------------------------- references

  lemma {:induction false} UniqueReferencesAreOk(s: Snapshot, attachments: seq<StoredAttachment>,
                                                 references: seq<AttachmentReference>)
    requires UniqueKeys(references, ReferenceKey)
    requires forall r | r in references ::
               IsRevision(s.revisions, r.noteId, r.revision) && IsAttachmentOf(attachments, r.attachmentId, r.noteId)
    ensures ReferencesOk(s, attachments, Sort(references, ReferenceKey))
  {
    var sorted := Sort(references, ReferenceKey);
    SortMembers(references, ReferenceKey);
    UniqueKeysOfSort(references, ReferenceKey);
    forall i | 0 <= i < |sorted|
      ensures ReferenceOk(s, attachments, sorted, i)
    {
      assert sorted[i] in references;
      forall j | 0 <= j < i
        ensures sorted[j] != sorted[i]
      {
        assert ReferenceKey(sorted[j]) != ReferenceKey(sorted[i]);
      }
    }
  }
}
