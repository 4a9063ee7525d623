// Exactly which archives of one note are accepted, and accepted archives that do not come back as they
// were (`validate_archive` and `create_archive` in crates/marginalis-archive/src/archive.rs).
module ArchivesOfOneNote {
  import opened Options
  import opened Domain
  import opened Unicode
  import opened Sequences
  import opened Sorting
  import opened Snapshots
  import opened Archives
  import opened ArchiveContents
  import opened ArchiveReading
  import opened ArchiveRoundTrip

  const NO_REVIEW := ReviewFields(true, None, None, None, None)

  // One revision of one note whose source uses no attachment. Stored attachments need not be used.
  datatype OneNote = OneNote(
    noteId: string, creator: Identity, source: string, createdAt: I64, updatedAt: I64, revision: I64,
    attachment: Option<ArchiveAttachment>)

  function NoteEntry(o: OneNote): ArchiveNote {
    ArchiveNote(o.noteId, o.creator, o.source, o.createdAt, o.updatedAt, o.revision, None,
                Some(Provenance(Web, NO_REVIEW)))
  }

  function RevisionEntry(o: OneNote): ArchiveRevision {
    ArchiveRevision(o.noteId, o.revision, o.updatedAt, o.creator, Created, o.source, None, NO_REVIEW, [])
  }

  function AttachmentEntries(o: OneNote): seq<ArchiveAttachment> {
    if o.attachment.Some? then [o.attachment.value] else []
  }

  function ArchiveOf(env: Environment, o: OneNote): Archive {
    Archive(ARCHIVE_FORMAT, env.packageVersion, ARCHIVE_NOTE_PROFILE_VERSION, Some([ArchivePrincipal(o.creator, [])]),
            [NoteEntry(o)], Some([RevisionEntry(o)]), Some(AttachmentEntries(o)), [])
  }

  function Table(o: OneNote): seq<Principal> {
    [Principal(1, o.creator, [o.creator])]
  }

  // The attachment reads, and belongs to the note.
  predicate AttachmentReads(env: Environment, o: OneNote) {
    o.attachment.Some? ==>
      var read := ReadAttachment(env, Table(o), o.attachment.value);
      read.Some? && env.parseId(o.noteId) == Some(read.value.noteId)
  }

  predicate OneNoteOk(env: Environment, o: OneNote) {
    && env.validIdentity(o.creator) && env.parseId(o.noteId).Some? && o.revision >= 1 && o.createdAt <= o.updatedAt
    && env.validate(o.source).Some? && env.validate(o.source).value.attachmentIds == []
    && AttachmentReads(env, o)
  }

  function NoteRead(env: Environment, o: OneNote): Note
    requires env.parseId(o.noteId).Some? && env.validate(o.source).Some? && o.revision >= 1
  {
    var draft := env.validate(o.source).value;
    Note(env.parseId(o.noteId).value, PrincipalRef(1, o.creator), draft.title, o.source, draft.tags,
         o.createdAt, o.updatedAt, o.revision, None, Web, Tracked(None))
  }

  function AttachmentsRead(env: Environment, o: OneNote): seq<StoredAttachment>
    requires AttachmentReads(env, o)
  {
    if o.attachment.Some? then [ReadAttachment(env, Table(o), o.attachment.value).value] else []
  }

  function PartsRead(env: Environment, o: OneNote): Parts
    requires OneNoteOk(env, o)
  {
    var n := NoteRead(env, o);
    Parts(Table(o), [n], [NoteRevision(n, n.owner, Created)], [], AttachmentsRead(env, o), [[]])
  }

  lemma {:induction false} TableOfOne(env: Environment, o: OneNote)
    ensures DeclaredPrincipals(env, [ArchivePrincipal(o.creator, [])])
            == if env.validIdentity(o.creator) then Some(Table(o)) else None
  {
    var entry := ArchivePrincipal(o.creator, []);
    assert [entry][1..] == [] && [o.creator] + [] == [o.creator];
    assert AllIdentities([entry]) == [o.creator];
    assert EntryOk(env, entry) <==> env.validIdentity(IdentitiesOf(entry)[0]);
    assert EntriesValid(env, [entry]) <==> EntryOk(env, [entry][0]);
    assert Sort([entry], PrincipalKey) == [entry];
    assert Numbered([entry]) == Table(o);
  }

  lemma {:induction false} OneNoteReads(env: Environment, o: OneNote)
    requires OneNoteOk(env, o)
    ensures ReadParts(env, ArchiveOf(env, o)) == Some(PartsRead(env, o))
  {
    var p, n := PartsRead(env, o), NoteRead(env, o);
    TableOfOne(env, o);
    TraverseAll(NoteReader(env, Table(o)), [NoteEntry(o)], [n]);
    TraverseAll(RevisionReader(env, Table(o), [n]), [RevisionEntry(o)], p.revisions);
    TraverseAll(AttachmentReader(env, Table(o)), AttachmentEntries(o), p.attachments);
    assert IdsMatch(env.validate(o.source).value, []);
    assert Map(ReferenceTo(n.noteId, n.revision), []) == [];
    TraverseAll(ReferencesReader(env), [RevisionEntry(o)], [[]]);
  }

  lemma {:induction false} OneNoteFits(p: Parts, n: Note)
    requires p.notes == [n] && p.revisions == [NoteRevision(n, n.owner, Created)] && p.acl == [] && p.references == [[]]
    requires p.attachments != [] ==>
               && |p.attachments| == 1 && p.attachments[0].noteId == n.noteId
               && IsDeclaredId(p.principals, p.attachments[0].createdBy.id)
                   && |p.attachments[0].bytes| <= MAX_ATTACHMENT_BYTES
    ensures PartsOk(p)
  {
    var e := NoteRevision(n, n.owner, Created);
    SortOfSorted([e], RevisionKey);
    assert CurrentNote([n], n.noteId) == Some(n);
    assert RevisionOk([n], [e], 0);
    FilterCons(OfNote(n.noteId), e, []);
    assert [e] + [] == [e];
    assert History([e], n.noteId) == [e];
    assert p.references[1..] == [];
    assert Flatten(p.references) == [];
    OneAttachmentFits(Declaring(p), p.attachments, n);
  }

  lemma {:induction false} OneAttachmentFits(s: Snapshot, attachments: seq<StoredAttachment>, n: Note)
    requires s.notes == [n]
    requires attachments != [] ==>
               && |attachments| == 1 && attachments[0].noteId == n.noteId
               && IsDeclaredId(s.principals, attachments[0].createdBy.id)
                   && |attachments[0].bytes| <= MAX_ATTACHMENT_BYTES
    ensures Sort(attachments, AttachmentIdKey) == attachments && AttachmentsOk(s, attachments)
  {
    if attachments != [] {
      SortOfSorted(attachments, AttachmentIdKey);
      var first := attachments[..1];
      assert first == attachments && first[..0] == [];
      assert Count(first[..0], n.noteId) == 0 && Bytes(first[..0], n.noteId) == 0;
      assert Count(first, n.noteId) == 1 && Bytes(first, n.noteId) == |attachments[0].bytes|;
      assert s.notes[0] == n;
      assert AttachmentOk(s, attachments, 0);
    }
  }

  lemma {:induction false} ReadOneNoteIsOk(env: Environment, o: OneNote)
    requires ReadsAndFits(env, ArchiveOf(env, o))
    ensures OneNoteOk(env, o)
  {
    var p := ReadParts(env, ArchiveOf(env, o)).value;
    TableOfOne(env, o);
    TraverseAt(NoteReader(env, Table(o)), [NoteEntry(o)], 0);
    TraverseAt(ReferencesReader(env), [RevisionEntry(o)], 0);
    UnusedIds(env.validate(o.source).value);
    if o.attachment.Some? {
      TraverseAt(AttachmentReader(env, Table(o)), AttachmentEntries(o), 0);
      AttachmentOfTheNote(Declaring(p), p.attachments, p.notes[0]);
    }
  }

  lemma {:induction false} AttachmentOfTheNote(s: Snapshot, attachments: seq<StoredAttachment>, n: Note)
    requires s.notes == [n] && |attachments| == 1 && AttachmentsOk(s, Sort(attachments, AttachmentIdKey))
    ensures attachments[0].noteId == n.noteId
  {
    SortOfSorted(attachments, AttachmentIdKey);
    assert AttachmentOk(s, attachments, 0);
  }

  lemma {:induction false} UnusedIds(draft: Draft)
    requires IdsMatch(draft, [])
    ensures draft.attachmentIds == []
  {
    SortMembers(draft.attachmentIds, TextKey);
    DedupMembers(Sort(draft.attachmentIds, TextKey));
    assert forall id | id in draft.attachmentIds :: id in Sort([], TextKey);
    assert |Sort([], TextKey)| == 0;
    assert forall i | 0 <= i < |draft.attachmentIds| :: draft.attachmentIds[i] in draft.attachmentIds;
  }

  // The archive of one note is accepted exactly when its identity, ID, source, revision, times and
  // attachment are valid.
  lemma {:induction false} OneNoteIsAcceptedIff(env: Environment, o: OneNote)
    ensures Validate(env, ArchiveOf(env, o)).Some? <==> OneNoteOk(env, o)
  {
    CurrentContract(env, ArchiveOf(env, o));
    if OneNoteOk(env, o) {
      ValidOneNoteFits(env, o);
    }
    if ReadsAndFits(env, ArchiveOf(env, o)) {
      ReadOneNoteIsOk(env, o);
    }
  }

  predicate ReadsAndFits(env: Environment, a: Archive)
    requires HasParts(a)
  {
    ReadParts(env, a).Some? && PartsOk(ReadParts(env, a).value)
  }

  lemma {:induction false} ValidOneNoteFits(env: Environment, o: OneNote)
    requires OneNoteOk(env, o)
    ensures ReadsAndFits(env, ArchiveOf(env, o))
  {
    OneNoteReads(env, o);
    AttachmentIsCreated(env, o);
    OneNoteFits(PartsRead(env, o), NoteRead(env, o));
  }

  lemma {:induction false} AttachmentIsCreated(env: Environment, o: OneNote)
    requires AttachmentReads(env, o)
    ensures o.attachment.Some? ==>
              var read := AttachmentsRead(env, o)[0];
              IsDeclaredId(Table(o), read.createdBy.id) && |read.bytes| <= MAX_ATTACHMENT_BYTES
  {
    assert Table(o)[0].id == 1;
    assert IsDeclaredId(Table(o), 1);
    if o.attachment.Some? {
      assert FindPrimary(Table(o)[1..], o.attachment.value.createdBy).None?;
      assert RefOf(env, Table(o), o.attachment.value.createdBy) == Some(AttachmentsRead(env, o)[0].createdBy);
    }
  }

  lemma {:induction false} CurrentContract(env: Environment, a: Archive)
    requires a.format == ARCHIVE_FORMAT && a.packageVersion == env.packageVersion
             && a.profileVersion == ARCHIVE_NOTE_PROFILE_VERSION
    requires HasProvenance(a) && HasParts(a)
    ensures Validate(env, a).Some? <==> ReadsAndFits(env, a)
  {
    ContentsIffPartsOk(env, a);
  }

  // ---------------------------------------------------------------- what does not come back

  // An accepted archive of one note comes back as it was exactly when its IDs are printed and the file
  // name of its attachment is normal.
  lemma {:induction false} OneNoteComesBackIff(env: Environment, o: OneNote)
    requires Lawful(env) && OneNoteOk(env, o)
    ensures Validate(env, ArchiveOf(env, o)).Some?
    ensures Create(env, Validate(env, ArchiveOf(env, o)).value) == Canonical(ArchiveOf(env, o))
       <==> && env.parseId(o.noteId) == Some(o.noteId)
            && (o.attachment.Some? ==> AttachmentNormalizer(env)(o.attachment.value) == o.attachment.value)
  {
    OneNoteIsAcceptedIff(env, o);
    RoundTripIffNormal(env, ArchiveOf(env, o));
    OneNoteIsNormal(env, o);
  }

  lemma {:induction false} OneNoteIsNormal(env: Environment, o: OneNote)
    requires env.parseId(o.noteId).Some?
    ensures IsNormal(env, ArchiveOf(env, o))
       <==> && env.parseId(o.noteId) == Some(o.noteId)
            && (o.attachment.Some? ==> AttachmentNormalizer(env)(o.attachment.value) == o.attachment.value)
  {
    var a := ArchiveOf(env, o);
    assert PrintedId(env, a.notes[0].noteId) == PrintedId(env, o.noteId);
    if o.attachment.Some? {
      assert a.attachments.value[0] == o.attachment.value;
    }
  }

  // An ID that is not in printed form, such as one in upper case, comes back in printed form.
  lemma {:induction false} UnprintedIdDoesNotComeBack(env: Environment, o: OneNote, printed: string)
    requires Lawful(env) && OneNoteOk(env, o) && env.parseId(o.noteId) == Some(printed) && o.noteId != printed
    ensures Validate(env, ArchiveOf(env, o)).Some?
    ensures Create(env, Validate(env, ArchiveOf(env, o)).value) != Canonical(ArchiveOf(env, o))
  {
    OneNoteComesBackIff(env, o);
  }

  // A file name with white space around it, or one that is not normal, comes back without and normal.
  lemma {:induction false} UnnormalNameDoesNotComeBack(env: Environment, o: OneNote)
    requires Lawful(env) && OneNoteOk(env, o)
    requires o.attachment.Some? && env.trimmedNfc(o.attachment.value.fileName) != o.attachment.value.fileName
    ensures Validate(env, ArchiveOf(env, o)).Some?
    ensures Create(env, Validate(env, ArchiveOf(env, o)).value) != Canonical(ArchiveOf(env, o))
  {
    OneNoteComesBackIff(env, o);
  }

  // ---------------------------------------------------------------- such archives exist

  function AsText(bytes: seq<Byte>): string {
    seq(|bytes|, i requires 0 <= i < |bytes| => bytes[i] as char)
  }

  function AsBytes(text: string): Option<seq<Byte>> {
    if forall i | 0 <= i < |text| :: (text[i] as int) < 0x100
    then Some(seq(|text|, i requires 0 <= i < |text| && (text[i] as int) < 0x100 => text[i] as int))
    else None
  }

  lemma {:induction false} TextOfBytes()
    ensures forall bytes :: AsBytes(AsText(bytes)) == Some(bytes)
    ensures forall text :: AsBytes(text).Some? ==> AsText(AsBytes(text).value) == text
  {
    forall bytes: seq<Byte>
      ensures AsBytes(AsText(bytes)) == Some(bytes)
    {
      assert AsBytes(AsText(bytes)).value == bytes;
    }
    forall text | AsBytes(text).Some?
      ensures AsText(AsBytes(text).value) == text
    {
      assert |AsText(AsBytes(text).value)| == |text|;
    }
  }

  // Parses one more ID and trims one more name than those that are printed and normal.
  function RewritingEnvironment(id: string, printed: string, name: string, normal: string): Environment {
    Environment(
      "1", (given: string) => Some(if given == id then printed else given), (i: Identity) => true,
      (source: string) => Some(Draft("", [], [])), (given: string) => if given == name then normal else given,
      AsText, AsBytes, (bytes: seq<Byte>) => seq(32, i => 0), (bytes: seq<Byte>) => Some(Png))
  }

  // Under the same laws, an archive that is accepted need not come back.
  lemma {:induction false} ArchivesThatDoNotComeBackExist()
    returns (env: Environment, unprinted: OneNote, unnormal: OneNote)
    ensures Lawful(env) && OneNoteOk(env, unprinted) && OneNoteOk(env, unnormal)
    ensures env.parseId(unprinted.noteId).Some? && env.parseId(unprinted.noteId) != Some(unprinted.noteId)
    ensures unnormal.attachment.Some?
    ensures env.trimmedNfc(unnormal.attachment.value.fileName) != unnormal.attachment.value.fileName
  {
    env := RewritingEnvironment("A", "a", " x", "x");
    TextOfBytes();
    var creator := Identity("https://issuer", "subject");
    unprinted := OneNote("A", creator, "", 0, 0, 1, None);
    var digest: seq<Byte> := seq(32, i => 0);
    HexCodec.DecodeInvertsEncode(digest, HexCodec.Encode(digest));
    var attachment := ArchiveAttachment("b", "a", " x", Png, 1, HexCodec.Encode(digest), AsText([0]), 0, creator);
    unnormal := OneNote("a", creator, "", 0, 0, 1, Some(attachment));
    var read := ReadAttachment(env, Table(unnormal), attachment);
    assert AsBytes(AsText([0])) == Some([0]);
    assert ValidFileName("x");
    assert read.Some?;
  }
}
