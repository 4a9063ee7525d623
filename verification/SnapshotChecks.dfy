// The loops with which the builders of a snapshot check their input. Each reports the position,
// counted from one, of the first entry that is not acceptable
// (crates/marginalis-application/src/snapshot.rs).
module SnapshotChecks {
  import opened Options
  import opened Domain
  import opened Principals
  import opened Snapshots

  predicate IsPosition(bad: Option<nat>, length: nat) {
    bad.Some? ==> 1 <= bad.value <= length
  }

  method CheckNotes(notes: seq<Note>) returns (bad: Option<nat>)
    ensures IsPosition(bad, |notes|) && (bad.None? ==> NotesOk(notes))
    ensures bad.Some? ==> !NoteOk(notes, bad.value - 1) && forall i | 0 <= i < bad.value - 1 :: NoteOk(notes, i)
  {
    var noteIds: set<string> := {};
    for index := 0 to |notes|
      invariant forall id :: id in noteIds <==> exists j | 0 <= j < index :: notes[j].noteId == id
      invariant forall i | 0 <= i < index :: NoteOk(notes, i)
    {
      if notes[index].noteId in noteIds {
        return Some(index + 1);
      }
      noteIds := noteIds + {notes[index].noteId};
    }
    bad := None;
  }

  method CheckAcl(notes: seq<Note>, acl: seq<NoteAcl>) returns (bad: Option<nat>)
    ensures IsPosition(bad, |acl|) && (bad.None? ==> AclsOk(notes, acl))
    ensures bad.Some? ==> !AclOk(notes, acl, bad.value - 1) && forall i | 0 <= i < bad.value - 1 :: AclOk(notes, acl, i)
  {
    var aclKeys: set<(string, int)> := {};
    for index := 0 to |acl|
      invariant forall key ::
                  key in aclKeys <==> exists j | 0 <= j < index :: (acl[j].noteId, acl[j].principal.id) == key
      invariant forall i | 0 <= i < index :: AclOk(notes, acl, i)
    {
      var entry := acl[index];
      var note := CurrentNote(notes, entry.noteId);
      if note.None? {
        return Some(index + 1);
      }
      var key := (entry.noteId, entry.principal.id);
      if entry.principal.id == note.value.owner.id || key in aclKeys {
        return Some(index + 1);
      }
      aclKeys := aclKeys + {key};
    }
    bad := None;
  }

  method CheckRevisions(notes: seq<Note>, revisions: seq<NoteRevision>) returns (bad: Option<nat>)
    ensures IsPosition(bad, |revisions|) && (bad.None? ==> RevisionsOk(notes, revisions))
    ensures bad.Some? ==>
              && !RevisionOk(notes, revisions, bad.value - 1)
              && forall i | 0 <= i < bad.value - 1 :: RevisionOk(notes, revisions, i)
  {
    var keys: set<(string, Revision)> := {};
    for index := 0 to |revisions|
      invariant forall key: (string, Revision) :: key in keys <==>
                  exists j | 0 <= j < index :: (revisions[j].note.noteId, revisions[j].note.revision) == key
      invariant forall i | 0 <= i < index :: RevisionOk(notes, revisions, i)
    {
      var historical := revisions[index].note;
      var current := CurrentNote(notes, historical.noteId);
      if current.None? {
        return Some(index + 1);
      }
      var key := (historical.noteId, historical.revision);
      if key in keys
         || historical.owner.id != current.value.owner.id
         || historical.createdAt != current.value.createdAt
         || historical.createdVia != current.value.createdVia
         || historical.revision > current.value.revision
      {
        return Some(index + 1);
      }
      keys := keys + {key};
    }
    bad := None;
  }

  method CheckHistories(notes: seq<Note>, revisions: seq<NoteRevision>) returns (ok: bool)
    ensures ok == HistoriesOk(notes, revisions)
  {
    for index := 0 to |notes|
      invariant forall i | 0 <= i < index :: HistoryOk(History(revisions, notes[i].noteId), notes[i])
    {
      var history := History(revisions, notes[index].noteId);
      if history == [] {
        return false;
      }
      if ById(history[|history| - 1].note) != ById(notes[index]) || !GapFree(history) {
        return false;
      }
    }
    ok := true;
  }

  method CheckPrincipals(principals: seq<Principal>) returns (bad: Option<nat>)
    ensures IsPosition(bad, |principals|) && (bad.None? ==> PrincipalsOk(principals))
    ensures bad.Some? ==>
              && !PrincipalOk(principals, bad.value - 1)
              && forall i | 0 <= i < bad.value - 1 :: PrincipalOk(principals, i)
  {
    var ids: set<int> := {};
    var identities: set<Identity> := {};
    for index := 0 to |principals|
      invariant forall id :: id in ids <==> exists j | 0 <= j < index :: principals[j].id == id
      invariant forall identity ::
                  identity in identities <==> exists j | 0 <= j < index :: identity in principals[j].identities
      invariant forall i | 0 <= i < index :: PrincipalOk(principals, i)
    {
      var p := principals[index];
      if p.id in ids {
        return Some(index + 1);
      }
      var isNew := AreNew(p.identities, identities);
      if !isNew {
        return Some(index + 1);
      }
      ids := ids + {p.id};
      identities := identities + set identity | identity in p.identities;
    }
    bad := None;
  }

  // Inserts the identities one by one and stops at the first that was there.
  method AreNew(identities: seq<Identity>, taken: set<Identity>) returns (ok: bool)
    ensures ok <==> DistinctIdentities(identities) && forall i | 0 <= i < |identities| :: identities[i] !in taken
  {
    var seen := taken;
    for i := 0 to |identities|
      invariant seen == taken + set j | 0 <= j < i :: identities[j]
      invariant forall j, k | 0 <= j < k < i :: identities[j] != identities[k]
      invariant forall j | 0 <= j < i :: identities[j] !in taken
    {
      if identities[i] in seen {
        return false;
      }
      seen := seen + {identities[i]};
    }
    ok := true;
  }

  method CheckAttachments(s: Snapshot, attachments: seq<StoredAttachment>) returns (bad: Option<nat>)
    ensures IsPosition(bad, |attachments|) && (bad.None? ==> AttachmentsOk(s, attachments))
    ensures bad.Some? ==>
              && !AttachmentOk(s, attachments, bad.value - 1)
              && forall i | 0 <= i < bad.value - 1 :: AttachmentOk(s, attachments, i)
  {
    var noteIds, principalIds := NoteIds(s.notes), PrincipalIds(s.principals);
    var attachmentIds: set<string> := {};
    var totals: map<string, (nat, nat)> := map[];
    assert attachments[..0] == [];
    for index := 0 to |attachments|
      invariant AttachmentIdsAre(attachmentIds, attachments[..index])
      invariant TotalsAre(totals, attachments[..index])
      invariant forall i | 0 <= i < index :: AttachmentOk(s, attachments, i)
    {
      var a := attachments[index];
      var total := (Total(totals, a.noteId).0 + 1, Total(totals, a.noteId).1 + |a.bytes|);
      TotalsNext(totals, attachments, index);
      AttachmentOkIff(s, attachments, index, attachmentIds);
      totals := totals[a.noteId := total];
      if a.attachmentId in attachmentIds
         || a.noteId !in noteIds
         || a.createdBy.id !in principalIds
         || total.0 > MAX_ATTACHMENTS_PER_NOTE
         || total.1 > MAX_BYTES_PER_NOTE
      {
        return Some(index + 1);
      }
      attachmentIds := attachmentIds + {a.attachmentId};
    }
    bad := None;
  }

  // Count and bytes of a note's attachments so far.
  function Total(totals: map<string, (nat, nat)>, noteId: string): (nat, nat) {
    if noteId in totals then totals[noteId] else (0, 0)
  }

  function NoteIds(notes: seq<Note>): (ids: set<string>)
    ensures forall id :: id in ids <==> IsNote(notes, id)
  {
    set i | 0 <= i < |notes| :: notes[i].noteId
  }

  function PrincipalIds(principals: seq<Principal>): (ids: set<int>)
    ensures forall id :: id in ids <==> IsDeclaredId(principals, id)
  {
    set i | 0 <= i < |principals| :: principals[i].id
  }

  ghost predicate AttachmentIdsAre(ids: set<string>, attachments: seq<StoredAttachment>) {
    forall id :: id in ids <==> exists a | a in attachments :: a.attachmentId == id
  }

  lemma {:induction false} AttachmentOkIff(s: Snapshot, attachments: seq<StoredAttachment>, index: nat,
                                           ids: set<string>)
    requires index < |attachments| && AttachmentIdsAre(ids, attachments[..index])
    ensures var a := attachments[index];
            AttachmentOk(s, attachments, index)
            <==> a.attachmentId !in ids && IsNote(s.notes, a.noteId) && IsDeclaredId(s.principals, a.createdBy.id)
                 && WithinQuota(attachments[..index + 1], a.noteId)
    ensures AttachmentIdsAre(ids + {attachments[index].attachmentId}, attachments[..index + 1])
  {
    assert attachments[..index + 1] == attachments[..index] + [attachments[index]];
    forall j | 0 <= j < index ensures attachments[j] in attachments[..index] {
      assert attachments[..index][j] == attachments[j];
    }
  }

  ghost predicate TotalsAre(totals: map<string, (nat, nat)>, attachments: seq<StoredAttachment>) {
    forall id :: Total(totals, id) == (Count(attachments, id), Bytes(attachments, id))
  }

  lemma {:induction false} TotalsNext(totals: map<string, (nat, nat)>, attachments: seq<StoredAttachment>, index: nat)
    requires index < |attachments| && TotalsAre(totals, attachments[..index])
    ensures var a := attachments[index];
            var total := (Total(totals, a.noteId).0 + 1, Total(totals, a.noteId).1 + |a.bytes|);
            && TotalsAre(totals[a.noteId := total], attachments[..index + 1])
            && total == (Count(attachments[..index + 1], a.noteId), Bytes(attachments[..index + 1], a.noteId))
  {
    var a, upTo := attachments[index], attachments[..index + 1];
    var next := totals[a.noteId := (Total(totals, a.noteId).0 + 1, Total(totals, a.noteId).1 + |a.bytes|)];
    assert upTo[..index] == attachments[..index];
    forall id ensures Total(next, id) == (Count(upTo, id), Bytes(upTo, id)) {
      assert Total(totals, id) == (Count(attachments[..index], id), Bytes(attachments[..index], id));
    }
  }

  method CheckReferences(s: Snapshot, attachments: seq<StoredAttachment>, references: seq<AttachmentReference>)
    returns (bad: Option<nat>)
    requires AttachmentsOk(s, attachments)
    ensures IsPosition(bad, |references|) && (bad.None? ==> ReferencesOk(s, attachments, references))
    ensures bad.Some? ==>
              && !ReferenceOk(s, attachments, references, bad.value - 1)
              && forall i | 0 <= i < bad.value - 1 :: ReferenceOk(s, attachments, references, i)
  {
    var revisionKeys := set i | 0 <= i < |s.revisions| :: (s.revisions[i].note.noteId, s.revisions[i].note.revision);
    var attachmentNotes := AttachmentNotes(s, attachments);
    var referenceKeys: set<AttachmentReference> := {};
    for index := 0 to |references|
      invariant forall key :: key in referenceKeys <==> exists j | 0 <= j < index :: references[j] == key
      invariant forall i | 0 <= i < index :: ReferenceOk(s, attachments, references, i)
    {
      var r := references[index];
      if (r.noteId, r.revision) !in revisionKeys
         || r.attachmentId !in attachmentNotes
         || attachmentNotes[r.attachmentId] != r.noteId
         || r in referenceKeys
      {
        return Some(index + 1);
      }
      referenceKeys := referenceKeys + {r};
    }
    bad := None;
  }

  // The note of each attachment.
  method AttachmentNotes(s: Snapshot, attachments: seq<StoredAttachment>) returns (notes: map<string, string>)
    requires AttachmentsOk(s, attachments)
    ensures forall id, noteId :: (id in notes && notes[id] == noteId) <==> IsAttachmentOf(attachments, id, noteId)
  {
    notes := map[];
    for i := 0 to |attachments|
      invariant forall id :: id in notes <==> exists j | 0 <= j < i :: attachments[j].attachmentId == id
      invariant forall j | 0 <= j < i ::
                  attachments[j].attachmentId in notes && notes[attachments[j].attachmentId] == attachments[j].noteId
    {
      assert AttachmentOk(s, attachments, i);
      notes := notes[attachments[i].attachmentId := attachments[i].noteId];
    }
  }

  method ReferencesResolve(principals: seq<Principal>, references: seq<PrincipalRef>) returns (ok: bool)
    ensures ok == AllResolve(principals, references)
  {
    for i := 0 to |references|
      invariant forall j | 0 <= j < i :: Resolves(principals, references[j])
    {
      var p := Find(principals, references[i].id);
      if p.None? {
        return false;
      }
      if p.value.primary != references[i].primary {
        return false;
      }
    }
    ok := true;
  }
}
