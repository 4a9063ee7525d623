// What holds of a snapshot that was read from an archive: it is the result of a run of the builders with
// the attachments last (crates/marginalis-archive/src/archive.rs,
// crates/marginalis-application/src/snapshot.rs).
module ArchivePipeline {
  import opened Options
  import opened Domain
  import opened Sequences
  import opened Sorting
  import opened Principals
  import opened Snapshots
  import opened SnapshotHistory
  import opened Archives
  import opened ArchiveContents
  import opened ArchiveReading

  function CallsOf(p: Parts): seq<Call> {
    [Revisions(p.revisions), Declare(p.principals), Attachments(p.attachments, Flatten(p.references))]
  }

  lemma {:induction false} RunOfThree(s: Snapshot, a: Call, b: Call, c: Call)
    requires Apply(s, a).Some? && Apply(Apply(s, a).value, b).Some? && Apply(Apply(Apply(s, a).value, b).value, c).Some?
    ensures Run(s, [a, b, c]) == Apply(Apply(Apply(s, a).value, b).value, c)
  {
    assert [a, b, c][1..] == [b, c] && [b, c][1..] == [c] && [c][1..] == [];
    var t := Apply(s, a).value;
    var u := Apply(t, b).value;
    assert Run(u, [c]) == Run(Apply(u, c).value, []);
    assert Run(t, [b, c]) == Run(u, [c]);
  }

  lemma {:induction false} AssembleIsRun(p: Parts)
    requires Assemble(p).Some?
    ensures New(p.notes, p.acl).Some? && Run(New(p.notes, p.acl).value, CallsOf(p)) == Assemble(p)
    ensures Covered(Assemble(p).value)
  {
    var s := New(p.notes, p.acl).value;
    var t := WithNoteRevisions(s, p.revisions).value;
    var u := WithPrincipals(t, p.principals).value;
    RunOfThree(s, CallsOf(p)[0], CallsOf(p)[1], CallsOf(p)[2]);
    assert CallsOf(p) == [CallsOf(p)[0], CallsOf(p)[1], CallsOf(p)[2]];
    AcceptedAttachments(u, p.attachments, Flatten(p.references));
  }

  lemma {:induction false} AssembledIsSound(p: Parts)
    requires Declared(p.principals) && Assemble(p).Some?
    ensures Consistent(Assemble(p).value) && Complete(Assemble(p).value)
  {
    AssembleIsRun(p);
    var calls := CallsOf(p);
    assert forall i | 0 <= i < |calls| :: ValidCall(calls[i]);
    EverySnapshotIsConsistent(p.notes, p.acl, calls);
    EverySnapshotIsComplete(p.notes, p.acl, calls);
  }

  // Every snapshot read from an archive has consistent principals, complete histories, and attachments
  // whose references all name an existing revision and an attachment of the same note within quota.
  lemma {:induction false} ReadSnapshotsAreSound(env: Environment, a: Archive)
    requires HasParts(a) && Contents(env, a).Some?
    ensures Consistent(Contents(env, a).value) && Complete(Contents(env, a).value) && Covered(Contents(env, a).value)
  {
    ReadPartsResolve(env, a);
    AssembleIsRun(ReadParts(env, a).value);
    AssembledIsSound(ReadParts(env, a).value);
  }

  lemma {:induction false} RevisionOwner(env: Environment, principals: seq<Principal>, notes: seq<Note>,
                                         e: ArchiveRevision)
    requires ReadRevision(env, principals, notes, e).Some?
    ensures var n := ReadRevision(env, principals, notes, e).value.note;
            CurrentNote(notes, n.noteId).Some? && CurrentNote(notes, n.noteId).value.owner == n.owner
  {
  }

  // The owner of every read revision is that of the current note.
  lemma {:induction false} ReadOwners(env: Environment, a: Archive, p: Parts)
    requires HasParts(a) && ReadParts(env, a) == Some(p)
    ensures forall i | 0 <= i < |p.revisions| ::
              CurrentOwner(Assembled(p), p.revisions[i]) == Some(p.revisions[i].note.owner)
  {
    forall i | 0 <= i < |p.revisions|
      ensures CurrentOwner(Assembled(p), p.revisions[i]) == Some(p.revisions[i].note.owner)
    {
      TraverseLength(RevisionReader(env, p.principals, p.notes), a.revisions.value);
      TraverseAt(RevisionReader(env, p.principals, p.notes), a.revisions.value, i);
      RevisionOwner(env, p.principals, p.notes, a.revisions.value[i]);
    }
  }

  lemma {:induction false} SortedOwners(p: Parts)
    requires forall i | 0 <= i < |p.revisions| ::
             CurrentOwner(Assembled(p), p.revisions[i]) == Some(p.revisions[i].note.owner)
    ensures var s := Assembled(p);
            forall i | 0 <= i < |s.revisions| :: CurrentOwner(s, s.revisions[i]) == Some(s.revisions[i].note.owner)
  {
    var s := Assembled(p);
    SortMembers(p.revisions, RevisionKey);
    forall i | 0 <= i < |s.revisions|
      ensures CurrentOwner(s, s.revisions[i]) == Some(s.revisions[i].note.owner)
    {
      assert s.revisions[i] in p.revisions;
      var j :| 0 <= j < |p.revisions| && p.revisions[j] == s.revisions[i];
    }
  }

  // And the owners of historical notes resolve as well, because they are those of the current notes.
  lemma {:induction false} ReadHistoricalOwnersResolve(env: Environment, a: Archive)
    requires HasParts(a) && Contents(env, a).Some?
    ensures var s := Contents(env, a).value;
            forall i | 0 <= i < |s.revisions| :: Resolves(s.principals, s.revisions[i].note.owner)
  {
    ContentsIffPartsOk(env, a);
    ReadSnapshotsAreSound(env, a);
    ReadOwners(env, a, ReadParts(env, a).value);
    SortedOwners(ReadParts(env, a).value);
    HistoricalOwnersResolve(Contents(env, a).value);
  }
}
