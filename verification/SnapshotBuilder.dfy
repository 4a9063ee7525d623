// The snapshot object and its builders, which check their input in loops, sort it, and assign the
// fields (`LogicalSnapshot` in crates/marginalis-application/src/snapshot.rs).
module SnapshotBuilder {
  import opened Options
  import opened Domain
  import opened Sorting
  import opened Principals
  import opened Snapshots
  import opened SnapshotChecks

  datatype InvalidSnapshot =
    | DuplicateNote(position: nat)
    | InvalidAclEntry(position: nat)
    | InvalidNoteRevision(position: nat)
    | InvalidAttachment(position: nat)
    | InvalidAttachmentReference(position: nat)
    | InvalidPrincipal(position: nat)
    | InvalidPrincipalReference

  // A builder consumes its receiver: after an error the object is not used again.
  class LogicalSnapshot {
    var principals: seq<Principal>
    var notes: seq<Note>
    var revisions: seq<NoteRevision>
    var attachments: seq<StoredAttachment>
    var references: seq<AttachmentReference>
    var acl: seq<NoteAcl>

    function Value(): Snapshot
      reads this
    {
      Snapshot(principals, notes, revisions, attachments, references, acl)
    }

    constructor Unchecked(notes: seq<Note>, revisions: seq<NoteRevision>, acl: seq<NoteAcl>)
      ensures Value() == Snapshot([], notes, revisions, [], [], acl)
    {
      principals, attachments, references := [], [], [];
      this.notes, this.revisions, this.acl := notes, revisions, acl;
    }

    static method Create(notes: seq<Note>, acl: seq<NoteAcl>)
      returns (snapshot: LogicalSnapshot, error: Option<InvalidSnapshot>)
      ensures fresh(snapshot) && (error.None? <==> New(notes, acl).Some?)
      ensures error.None? ==> snapshot.Value() == New(notes, acl).value
    {
      snapshot := new LogicalSnapshot.Unchecked(notes, [], acl);
      var bad := CheckNotes(notes);
      if bad.Some? {
        return snapshot, Some(DuplicateNote(bad.value));
      }
      bad := CheckAcl(notes, acl);
      if bad.Some? {
        return snapshot, Some(InvalidAclEntry(bad.value));
      }
      snapshot := new LogicalSnapshot.Unchecked(notes, Map(Baseline, notes), acl);
      error := snapshot.IncludeReferencedPrincipals();
    }

    method IncludeReferencedPrincipals() returns (error: Option<InvalidSnapshot>)
      modifies this`principals
      ensures error.None? <==> Included(old(Value())).Some?
      ensures error.None? ==> Value() == Included(old(Value())).value
      ensures error.Some? ==> error.value == InvalidPrincipalReference
      ensures old(principals) <= principals
    {
      var named := PrincipalReferences(Value());
      assert named[0..] == named;
      for i := 0 to |named|
        invariant old(principals) <= principals
        invariant Include(old(principals), named) == Include(principals, named[i..])
      {
        var r := named[i];
        assert named[i..][1..] == named[i + 1..];
        var p := Find(principals, r.id);
        if p.Some? {
          if p.value.primary != r.primary {
            return Some(InvalidPrincipalReference);
          }
          continue;
        }
        if Owned(principals, r.primary) {
          return Some(InvalidPrincipalReference);
        }
        principals := principals + [Single(r)];
      }
      error := None;
    }

    method WithNoteRevisions(revisions: seq<NoteRevision>) returns (error: Option<InvalidSnapshot>)
      modifies this`revisions, this`principals
      ensures error.None? <==> Snapshots.WithNoteRevisions(old(Value()), revisions).Some?
      ensures error.None? ==> Value() == Snapshots.WithNoteRevisions(old(Value()), revisions).value
    {
      var sorted := Sort(revisions, RevisionKey);
      var bad := CheckRevisions(notes, sorted);
      if bad.Some? {
        return Some(InvalidNoteRevision(bad.value));
      }
      var complete := CheckHistories(notes, sorted);
      if !complete {
        return Some(InvalidNoteRevision(1));
      }
      this.revisions := sorted;
      error := IncludeReferencedPrincipals();
    }

    method WithAttachments(attachments: seq<StoredAttachment>, references: seq<AttachmentReference>)
      returns (error: Option<InvalidSnapshot>)
      modifies this`attachments, this`references, this`principals
      ensures error.None? <==> Snapshots.WithAttachments(old(Value()), attachments, references).Some?
      ensures error.None? ==> Value() == Snapshots.WithAttachments(old(Value()), attachments, references).value
    {
      var sortedAttachments := Sort(attachments, AttachmentIdKey);
      var sortedReferences := Sort(references, ReferenceKey);
      var bad := CheckAttachments(Value(), sortedAttachments);
      if bad.Some? {
        return Some(InvalidAttachment(bad.value));
      }
      bad := CheckReferences(Value(), sortedAttachments, sortedReferences);
      if bad.Some? {
        return Some(InvalidAttachmentReference(bad.value));
      }
      this.attachments := sortedAttachments;
      this.references := sortedReferences;
      error := IncludeReferencedPrincipals();
    }

    method WithPrincipals(principals: seq<Principal>) returns (error: Option<InvalidSnapshot>)
      modifies this`principals
      ensures error.None? <==> Snapshots.WithPrincipals(old(Value()), principals).Some?
      ensures error.None? ==> Value() == Snapshots.WithPrincipals(old(Value()), principals).value
    {
      var bad := CheckPrincipals(principals);
      if bad.Some? {
        return Some(InvalidPrincipal(bad.value));
      }
      this.principals := principals;
      error := ValidatePrincipalReferences();
    }

    method ValidatePrincipalReferences() returns (error: Option<InvalidSnapshot>)
      ensures error == if AllResolve(principals, PrincipalReferences(Value())) then None
              else Some(InvalidPrincipalReference)
    {
      var ok := ReferencesResolve(principals, PrincipalReferences(Value()));
      error := if ok then None else Some(InvalidPrincipalReference);
    }
  }
}
