// The files of an export: whose they are, when their paths are distinct, and what is found when they are
// read back (crates/marginalis-archive/src/documents.rs, crates/marginalis-service/src/maintenance/archive.rs).
module DocumentFiles {
  import opened Options
  import opened Domain
  import opened Unicode
  import opened Sequences
  import opened Sorting
  import opened Snapshots
  import opened SnapshotHistory
  import opened Archives
  import opened ArchiveContents
  import opened Flattening
  import opened Bibliographies
  import opened DocumentPaths
  import opened DocumentExports
  import opened DocumentImports
  import opened DocumentGrouping
  import opened DocumentRoundTrip
  import opened DocumentConservation

  // ---------------------------------------------------------------- reading the files back

  predicate DistinctPaths(files: seq<File>) {
    forall i, j | 0 <= i < j < |files| :: files[i].path != files[j].path
  }

  function Collected(files: seq<File>): Files {
    if files == [] then map[]
    else
      var last := |files| - 1;
      Collected(files[..last])[files[last].path := files[last].contents]
  }

  // An archive of documents that has a path twice is refused.
  function ReadBack(files: seq<File>): Option<Files> {
    if DistinctPaths(files) then Some(Collected(files)) else None
  }

  lemma {:induction false} CollectedPaths(files: seq<File>)
    ensures forall path :: path in Collected(files) <==> exists i | 0 <= i < |files| :: files[i].path == path
  {
    if files != [] {
      CollectedPaths(files[..|files| - 1]);
    }
  }

  method ReadDocumentArchive(entries: seq<File>) returns (r: Option<Files>)
    ensures r == ReadBack(entries)
  {
    var files: Files := map[];
    assert entries[..0] == [];
    for i := 0 to |entries|
      invariant files == Collected(entries[..i]) && DistinctPaths(entries[..i])
    {
      CollectedPaths(entries[..i]);
      assert entries[..i + 1][..i] == entries[..i];
      if entries[i].path in files {
        var k :| 0 <= k < i && entries[k].path == entries[i].path;
        return None;
      }
      assert forall k | 0 <= k < i :: entries[..i][k] == entries[k];
      files := files[entries[i].path := entries[i].contents];
    }
    assert entries[..|entries|] == entries;
    r := Some(files);
  }

  // ---------------------------------------------------------------- files and their paths

  function NoteFile(n: Note): File {
    File(PathOf(n), Utf8(n.source))
  }

  function FileOfAttachment(n: Note, a: StoredAttachment): File {
    AttachmentFile(DirectoryOf(n.owner.primary))(a)
  }

  predicate IsNoteFile(s: Snapshot, f: File) {
    exists n | n in LiveNotes(s) :: f == NoteFile(n)
  }

  ghost predicate IsAttachmentFile(s: Snapshot, f: File) {
    exists n, a | n in LiveNotes(s) && a in CurrentAttachments(s, n) :: f == FileOfAttachment(n, a)
  }

  predicate IsBibliographyFile(csl: Csl, s: Snapshot, items: seq<BibliographyItem>, f: File) {
    exists o | o in Owners(s, items) :: f == BibliographyFile(csl, items)(o)
  }

  lemma {:induction false} NoteFilesAre(s: Snapshot, n: Note, f: File)
    ensures f in NoteFiles(s)(n)
       <==> f == NoteFile(n) || exists a | a in CurrentAttachments(s, n) :: f == FileOfAttachment(n, a)
  {
    var current := CurrentAttachments(s, n);
    var attached := Map(AttachmentFile(DirectoryOf(n.owner.primary)), current);
    assert NoteFiles(s)(n) == [NoteFile(n)] + attached;
    if f in attached {
      var i := MapIndex(AttachmentFile(DirectoryOf(n.owner.primary)), current, f);
      assert current[i] in current;
    }
    forall a | a in current && f == FileOfAttachment(n, a)
      ensures f in attached
    {
      var i :| 0 <= i < |current| && current[i] == a;
      assert attached[i] == f;
    }
  }

  lemma {:induction false} OwnerFilesAre(csl: Csl, s: Snapshot, items: seq<BibliographyItem>, o: Identity, f: File)
    ensures f in OwnerFiles(csl, s, items)(o)
       <==> f == BibliographyFile(csl, items)(o) || exists n | n in NotesOf(s, o) :: f in NoteFiles(s)(n)
  {
    var notes := NotesOf(s, o);
    FlattenMembers(NoteFiles(s), notes, f);
    OwnerFilesIs(csl, s, items, o);
    assert (exists i | 0 <= i < |notes| :: f in NoteFiles(s)(notes[i]))
           <==> (exists n | n in notes :: f in NoteFiles(s)(n));
  }

  lemma {:induction false} OwnerFileIsExported(c: Codec, s: Snapshot, items: seq<BibliographyItem>, o: Identity,
                                               f: File)
    requires o in Owners(s, items) && f in OwnerFiles(c.csl, s, items)(o)
    ensures f in ExportOf(c, s, items).files
  {
    FlattenMembers(OwnerFiles(c.csl, s, items), Owners(s, items), f);
    var i :| 0 <= i < |Owners(s, items)| && Owners(s, items)[i] == o;
  }

  lemma {:induction false} FileIsExported(c: Codec, s: Snapshot, items: seq<BibliographyItem>, n: Note, f: File)
    requires n in LiveNotes(s) && f in NoteFiles(s)(n)
    ensures f in ExportOf(c, s, items).files
  {
    OwnersAreDistinct(s, items);
    assert OwnerOf(n) in Owners(s, items);
    NotesOfOwner(s, n.owner.primary);
    OwnerFilesAre(c.csl, s, items, n.owner.primary, f);
    OwnerFileIsExported(c, s, items, n.owner.primary, f);
  }

  lemma {:induction false} BibliographyIsExported(c: Codec, s: Snapshot, items: seq<BibliographyItem>, o: Identity)
    requires o in Owners(s, items)
    ensures BibliographyFile(c.csl, items)(o) in ExportOf(c, s, items).files
  {
    OwnerFilesAre(c.csl, s, items, o, BibliographyFile(c.csl, items)(o));
    OwnerFileIsExported(c, s, items, o, BibliographyFile(c.csl, items)(o));
  }

  lemma {:induction false} NoteIsExported(c: Codec, s: Snapshot, items: seq<BibliographyItem>, n: Note)
    requires n in LiveNotes(s)
    ensures NoteFile(n) in ExportOf(c, s, items).files
  {
    NoteFilesAre(s, n, NoteFile(n));
    FileIsExported(c, s, items, n, NoteFile(n));
  }

  lemma {:induction false} AttachmentIsExported(c: Codec, s: Snapshot, items: seq<BibliographyItem>, n: Note,
                                                a: StoredAttachment)
    requires n in LiveNotes(s) && a in CurrentAttachments(s, n)
    ensures FileOfAttachment(n, a) in ExportOf(c, s, items).files
  {
    NoteFilesAre(s, n, FileOfAttachment(n, a));
    FileIsExported(c, s, items, n, FileOfAttachment(n, a));
  }

  lemma {:induction false} ExportedFileBelongs(c: Codec, s: Snapshot, items: seq<BibliographyItem>, f: File)
    requires f in ExportOf(c, s, items).files
    ensures IsNoteFile(s, f) || IsAttachmentFile(s, f) || IsBibliographyFile(c.csl, s, items, f)
  {
    FlattenMembers(OwnerFiles(c.csl, s, items), Owners(s, items), f);
    var i :| 0 <= i < |Owners(s, items)| && f in OwnerFiles(c.csl, s, items)(Owners(s, items)[i]);
    var o := Owners(s, items)[i];
    assert o in Owners(s, items);
    OwnerFilesAre(c.csl, s, items, o, f);
    if f != BibliographyFile(c.csl, items)(o) {
      var n :| n in NotesOf(s, o) && f in NoteFiles(s)(n);
      NotesOfOwner(s, o);
      NoteFilesAre(s, n, f);
    }
  }

  // The exported files are those of the live notes, of their current attachments, and one bibliography
  // for each owner of a live note or an item.
  lemma {:induction false} ExportedFilesAre(c: Codec, s: Snapshot, items: seq<BibliographyItem>, f: File)
    ensures f in ExportOf(c, s, items).files
       <==> IsNoteFile(s, f) || IsAttachmentFile(s, f) || IsBibliographyFile(c.csl, s, items, f)
  {
    if f in ExportOf(c, s, items).files {
      ExportedFileBelongs(c, s, items, f);
    } else if IsNoteFile(s, f) {
      var n :| n in LiveNotes(s) && f == NoteFile(n);
      NoteIsExported(c, s, items, n);
    } else if IsAttachmentFile(s, f) {
      var n, a :| n in LiveNotes(s) && a in CurrentAttachments(s, n) && f == FileOfAttachment(n, a);
      AttachmentIsExported(c, s, items, n, a);
    } else if IsBibliographyFile(c.csl, s, items, f) {
      var o :| o in Owners(s, items) && f == BibliographyFile(c.csl, items)(o);
      BibliographyIsExported(c, s, items, o);
    }
  }

  // ---------------------------------------------------------------- no path is used for two contents

  lemma {:induction false} NoteFilesDiffer(env: Environment, s: Snapshot, n: Note, m: Note)
    requires Exportable(env, s) && n in LiveNotes(s) && m in LiveNotes(s) && PathOf(n) == PathOf(m)
    ensures n == m
  {
    LiveNotesAreNotes(s);
    NotePathGivesId(DirectoryOf(n.owner.primary), n.title, n.noteId, DirectoryOf(m.owner.primary), m.title, m.noteId);
    NoteById(s, n, m);
  }

  lemma {:induction false} AttachmentFilesDiffer(env: Environment, s: Snapshot, n: Note, a: StoredAttachment, m: Note,
                                                 b: StoredAttachment)
    requires Exportable(env, s) && a in s.attachments && b in s.attachments
    requires FileOfAttachment(n, a).path == FileOfAttachment(m, b).path
    ensures a == b
  {
    AttachmentPathGivesId(n.owner.primary.issuer, n.owner.primary.subject, a.attachmentId, a.fileName,
                          m.owner.primary.issuer, m.owner.primary.subject, b.attachmentId, b.fileName);
    AttachmentById(s.attachments, a, b);
  }

  lemma {:induction false} AttachmentById(attachments: seq<StoredAttachment>, a: StoredAttachment, b: StoredAttachment)
    requires UniqueKeys(attachments, AttachmentIdKey) && a in attachments && b in attachments
             && a.attachmentId == b.attachmentId
    ensures a == b
  {
    var i :| 0 <= i < |attachments| && attachments[i] == a;
    var j :| 0 <= j < |attachments| && attachments[j] == b;
    DifferentAttachments(a, b);
    assert AttachmentIdKey(attachments[i]) == AttachmentIdKey(attachments[j]);
  }

  lemma {:induction false} KindsDifferInPath(env: Environment, s: Snapshot, n: Note, m: Note, a: StoredAttachment,
                                             o: Identity)
    requires Exportable(env, s) && n in s.notes && a in s.attachments
    ensures NoteFile(n).path != FileOfAttachment(m, a).path
    ensures NoteFile(n).path != BibliographyPath(DirectoryOf(o))
    ensures FileOfAttachment(m, a).path != BibliographyPath(DirectoryOf(o))
  {
    KindsHaveDifferentPaths(n.owner.primary.issuer, n.owner.primary.subject, n.title, n.noteId,
                            m.owner.primary.issuer, m.owner.primary.subject, a.attachmentId, a.fileName, o.issuer,
                            o.subject);
  }

  lemma {:induction false} NoteAndBibliographyDiffer(env: Environment, s: Snapshot, n: Note, o: Identity)
    requires Exportable(env, s) && n in s.notes
    ensures NoteFile(n).path != BibliographyPath(DirectoryOf(o))
  {
    NotePathComponents(n.owner.primary.issuer, n.owner.primary.subject, n.title, n.noteId);
    BibliographyPathComponents(o.issuer, o.subject);
  }

  lemma {:induction false} NoteFileIsAlone(c: Codec, s: Snapshot, items: seq<BibliographyItem>, n: Note, f: File)
    requires Exportable(c.env, s) && n in LiveNotes(s) && f in ExportOf(c, s, items).files && f.path == PathOf(n)
    ensures f == NoteFile(n)
  {
    ExportedFileBelongs(c, s, items, f);
    LiveNotesAreNotes(s);
    if IsNoteFile(s, f) {
      var m :| m in LiveNotes(s) && f == NoteFile(m);
      NoteFilesDiffer(c.env, s, n, m);
    } else if IsAttachmentFile(s, f) {
      var m, a :| m in LiveNotes(s) && a in CurrentAttachments(s, m) && f == FileOfAttachment(m, a);
      CurrentBelong(s, m);
      KindsDifferInPath(c.env, s, n, m, a, n.owner.primary);
    } else {
      var o :| o in Owners(s, items) && f == BibliographyFile(c.csl, items)(o);
      NoteAndBibliographyDiffer(c.env, s, n, o);
    }
  }

  lemma {:induction false} AttachmentFileIsAlone(c: Codec, s: Snapshot, items: seq<BibliographyItem>, n: Note,
                                                 a: StoredAttachment, f: File)
    requires Exportable(c.env, s) && n in LiveNotes(s) && a in CurrentAttachments(s, n)
    requires f in ExportOf(c, s, items).files && f.path == FileOfAttachment(n, a).path
    ensures f.contents == a.bytes
  {
    ExportedFileBelongs(c, s, items, f);
    LiveNotesAreNotes(s);
    CurrentBelong(s, n);
    if IsNoteFile(s, f) {
      var m :| m in LiveNotes(s) && f == NoteFile(m);
      KindsDifferInPath(c.env, s, m, n, a, n.owner.primary);
    } else if IsAttachmentFile(s, f) {
      var m, b :| m in LiveNotes(s) && b in CurrentAttachments(s, m) && f == FileOfAttachment(m, b);
      CurrentBelong(s, m);
      AttachmentFilesDiffer(c.env, s, n, a, m, b);
    } else {
      var o :| o in Owners(s, items) && f == BibliographyFile(c.csl, items)(o);
      KindsDifferInPath(c.env, s, n, n, a, o);
    }
  }

  predicate DirectoriesDiffer(owners: seq<Identity>) {
    forall i, j | 0 <= i < j < |owners| :: DirectoryOf(owners[i]) != DirectoryOf(owners[j])
  }

  lemma {:induction false} BibliographyPathGivesDirectory(a: string, b: string)
    ensures BibliographyPath(a) == BibliographyPath(b) <==> a == b
  {
    assert BibliographyPath(a)[..|BibliographyPath(a)| - 18] == a
           && BibliographyPath(b)[..|BibliographyPath(b)| - 18] == b;
  }

  lemma {:induction false} OwnerByDirectory(owners: seq<Identity>, o: Identity, p: Identity)
    requires DirectoriesDiffer(owners) && o in owners && p in owners && DirectoryOf(o) == DirectoryOf(p)
    ensures o == p
  {
    var i :| 0 <= i < |owners| && owners[i] == o;
    var j :| 0 <= j < |owners| && owners[j] == p;
  }

  lemma {:induction false} BibliographyFileIsAlone(c: Codec, s: Snapshot, items: seq<BibliographyItem>, o: Identity,
                                                   f: File)
    requires Exportable(c.env, s) && DirectoriesDiffer(Owners(s, items)) && o in Owners(s, items)
    requires f in ExportOf(c, s, items).files && f.path == BibliographyPath(DirectoryOf(o))
    ensures f == BibliographyFile(c.csl, items)(o)
  {
    ExportedFileBelongs(c, s, items, f);
    LiveNotesAreNotes(s);
    if IsNoteFile(s, f) {
      var m :| m in LiveNotes(s) && f == NoteFile(m);
      NoteAndBibliographyDiffer(c.env, s, m, o);
    } else if IsAttachmentFile(s, f) {
      var m, b :| m in LiveNotes(s) && b in CurrentAttachments(s, m) && f == FileOfAttachment(m, b);
      CurrentBelong(s, m);
      KindsDifferInPath(c.env, s, m, m, b, o);
    } else {
      var p :| p in Owners(s, items) && f == BibliographyFile(c.csl, items)(p);
      BibliographyPathGivesDirectory(DirectoryOf(o), DirectoryOf(p));
      OwnerByDirectory(Owners(s, items), o, p);
    }
  }

  // ---------------------------------------------------------------- distinct paths

  function PathKey(f: File): Key { TextKey(f.path) }

  lemma {:induction false} DistinctMeansUnique(files: seq<File>)
    ensures DistinctPaths(files) <==> UniqueKeys(files, PathKey)
  {
    forall i, j | 0 <= i < j < |files|
      ensures files[i].path == files[j].path <==> PathKey(files[i]) == PathKey(files[j])
    {
      TextKeysIdentify(files[i].path, files[j].path);
    }
  }

  lemma {:induction false} PathsTellApart(a: seq<File>, b: seq<File>)
    ensures KeysApart(a, b, PathKey) <==> forall x, y | x in a && y in b :: x.path != y.path
  {
    forall x, y | x in a && y in b
      ensures x.path == y.path <==> PathKey(x) == PathKey(y)
    {
      TextKeysIdentify(x.path, y.path);
    }
  }

  lemma {:induction false} SameReference(r: AttachmentReference, q: AttachmentReference)
    ensures ReferenceKey(r) == ReferenceKey(q) <==> r == q
  {
    if ReferenceKey(r) == ReferenceKey(q) {
      assert ReferenceKey(r)[0] == ReferenceKey(q)[0] && ReferenceKey(r)[1] == ReferenceKey(q)[1]
             && ReferenceKey(r)[2] == ReferenceKey(q)[2];
      PointsInjective(r.noteId, q.noteId);
      PointsInjective(r.attachmentId, q.attachmentId);
      assert ReferenceKey(r)[1][0] == ReferenceKey(q)[1][0];
    }
  }

  lemma {:induction false} ReferencesAreUnique(s: Snapshot)
    requires Covered(s)
    ensures UniqueKeys(s.references, ReferenceKey)
  {
    forall i, j | 0 <= i < j < |s.references|
      ensures ReferenceKey(s.references[i]) != ReferenceKey(s.references[j])
    {
      SameReference(s.references[i], s.references[j]);
    }
  }

  lemma {:induction false} ReferencesOfRevision(s: Snapshot, noteId: string, revision: Revision, i: nat, j: nat)
    requires Covered(s) && i < j < |Filter(RefersToRevision(noteId, revision), s.references)|
    ensures var kept := Filter(RefersToRevision(noteId, revision), s.references);
            kept[i].attachmentId != kept[j].attachmentId
  {
    var kept := Filter(RefersToRevision(noteId, revision), s.references);
    ReferencesAreUnique(s);
    FilterKeepsUnique(RefersToRevision(noteId, revision), s.references, ReferenceKey);
    FilterMembers(RefersToRevision(noteId, revision), s.references);
    assert kept[i] in kept && kept[j] in kept;
    assert ReferenceKey(kept[i]) != ReferenceKey(kept[j]);
  }

  // The attachments of one revision are different ones.
  lemma {:induction false} CurrentAreDistinct(s: Snapshot, n: Note, i: nat, j: nat)
    requires Covered(s) && i < j < |CurrentAttachments(s, n)|
    ensures CurrentAttachments(s, n)[i].attachmentId != CurrentAttachments(s, n)[j].attachmentId
  {
    CurrentBelong(s, n);
    var documents := DocumentAttachments(s, n);
    assert Map(IdOf, documents)[i] == CurrentAttachments(s, n)[i].attachmentId;
    assert Map(IdOf, documents)[j] == CurrentAttachments(s, n)[j].attachmentId;
    ReferencesOfRevision(s, n.noteId, n.revision, i, j);
  }

  function AttachedFiles(s: Snapshot, n: Note): seq<File> {
    Map(AttachmentFile(DirectoryOf(n.owner.primary)), CurrentAttachments(s, n))
  }

  lemma {:induction false} AttachedFilesDiffer(env: Environment, s: Snapshot, n: Note, i: nat, j: nat)
    requires Exportable(env, s) && i < j < |AttachedFiles(s, n)|
    ensures AttachedFiles(s, n)[i].path != AttachedFiles(s, n)[j].path
  {
    var current := CurrentAttachments(s, n);
    CurrentBelong(s, n);
    CurrentAreDistinct(s, n, i, j);
    assert current[i] in current && current[j] in current;
    if FileOfAttachment(n, current[i]).path == FileOfAttachment(n, current[j]).path {
      AttachmentFilesDiffer(env, s, n, current[i], n, current[j]);
    }
  }

  lemma {:induction false} AttachedAreDistinct(env: Environment, s: Snapshot, n: Note)
    requires Exportable(env, s)
    ensures UniqueKeys(AttachedFiles(s, n), PathKey)
  {
    forall i, j | 0 <= i < j < |AttachedFiles(s, n)|
      ensures AttachedFiles(s, n)[i].path != AttachedFiles(s, n)[j].path
    {
      AttachedFilesDiffer(env, s, n, i, j);
    }
    DistinctMeansUnique(AttachedFiles(s, n));
  }

  lemma {:induction false} AttachedFileIsElsewhere(env: Environment, s: Snapshot, n: Note, f: File)
    requires Exportable(env, s) && n in s.notes && f in AttachedFiles(s, n)
    ensures f.path != PathOf(n)
  {
    CurrentBelong(s, n);
    var current := CurrentAttachments(s, n);
    var k := MapIndex(AttachmentFile(DirectoryOf(n.owner.primary)), current, f);
    assert current[k] in current;
    KindsDifferInPath(env, s, n, n, current[k], n.owner.primary);
  }

  lemma {:induction false} NoteFilesAreDistinct(env: Environment, s: Snapshot, n: Note)
    requires Exportable(env, s) && n in s.notes
    ensures UniqueKeys(NoteFiles(s)(n), PathKey)
  {
    AttachedAreDistinct(env, s, n);
    forall x, y | x in [NoteFile(n)] && y in AttachedFiles(s, n)
      ensures x.path != y.path
    {
      AttachedFileIsElsewhere(env, s, n, y);
    }
    PathsTellApart([NoteFile(n)], AttachedFiles(s, n));
    UniqueConcatenation([NoteFile(n)], AttachedFiles(s, n), PathKey);
  }

  // Files of different notes have different paths.
  lemma {:induction false} NotePathsDiffer(env: Environment, s: Snapshot, n: Note, m: Note, x: File, y: File)
    requires Exportable(env, s) && n in LiveNotes(s) && m in LiveNotes(s) && n != m
    requires x in NoteFiles(s)(n) && y in NoteFiles(s)(m)
    ensures x.path != y.path
  {
    NoteFilesAre(s, n, x);
    NoteFilesAre(s, m, y);
    if x.path == y.path {
      SharedPath(env, s, n, m, x, y);
    }
  }

  lemma {:induction false} NotesAreApart(env: Environment, s: Snapshot, n: Note, m: Note)
    requires Exportable(env, s) && n in LiveNotes(s) && m in LiveNotes(s) && n != m
    ensures KeysApart(NoteFiles(s)(n), NoteFiles(s)(m), PathKey)
  {
    forall x, y | x in NoteFiles(s)(n) && y in NoteFiles(s)(m)
      ensures x.path != y.path
    {
      NotePathsDiffer(env, s, n, m, x, y);
    }
    PathsTellApart(NoteFiles(s)(n), NoteFiles(s)(m));
  }

  lemma {:induction false} SharedPath(env: Environment, s: Snapshot, n: Note, m: Note, x: File, y: File)
    requires Exportable(env, s) && n in LiveNotes(s) && m in LiveNotes(s) && x.path == y.path
    requires x == NoteFile(n) || exists a | a in CurrentAttachments(s, n) :: x == FileOfAttachment(n, a)
    requires y == NoteFile(m) || exists a | a in CurrentAttachments(s, m) :: y == FileOfAttachment(m, a)
    ensures n == m
  {
    LiveNotesAreNotes(s);
    CurrentBelong(s, n);
    CurrentBelong(s, m);
    if x == NoteFile(n) && y == NoteFile(m) {
      NoteFilesDiffer(env, s, n, m);
    } else if x == NoteFile(n) {
      var b :| b in CurrentAttachments(s, m) && y == FileOfAttachment(m, b);
      KindsDifferInPath(env, s, n, m, b, n.owner.primary);
    } else {
      var a :| a in CurrentAttachments(s, n) && x == FileOfAttachment(n, a);
      if y == NoteFile(m) {
        KindsDifferInPath(env, s, m, n, a, n.owner.primary);
      } else {
        var b :| b in CurrentAttachments(s, m) && y == FileOfAttachment(m, b);
        AttachmentFilesDiffer(env, s, n, a, m, b);
        NoteById(s, n, m);
      }
    }
  }

  lemma {:induction false} NoteById(s: Snapshot, n: Note, m: Note)
    requires NotesOk(s.notes) && n in s.notes && m in s.notes && n.noteId == m.noteId
    ensures n == m
  {
    var i :| 0 <= i < |s.notes| && s.notes[i] == n;
    var j :| 0 <= j < |s.notes| && s.notes[j] == m;
    assert NoteOk(s.notes, i) && NoteOk(s.notes, j);
  }

  lemma {:induction false} BibliographyIsApart(env: Environment, s: Snapshot, n: Note, o: Identity, f: File)
    requires Exportable(env, s) && n in LiveNotes(s) && f in NoteFiles(s)(n)
    ensures f.path != BibliographyPath(DirectoryOf(o))
  {
    LiveNotesAreNotes(s);
    NoteFilesAre(s, n, f);
    if f == NoteFile(n) {
      NoteAndBibliographyDiffer(env, s, n, o);
    } else {
      var a :| a in CurrentAttachments(s, n) && f == FileOfAttachment(n, a);
      CurrentBelong(s, n);
      KindsDifferInPath(env, s, n, n, a, o);
    }
  }

  lemma {:induction false} OwnerFilesAreDistinct(c: Codec, s: Snapshot, items: seq<BibliographyItem>, o: Identity)
    requires Exportable(c.env, s)
    ensures UniqueKeys(OwnerFiles(c.csl, s, items)(o), PathKey)
  {
    var notes := NotesOf(s, o);
    NotesOfOwner(s, o);
    NotesOfOwnerAreDistinct(s, o);
    LiveNotesAreNotes(s);
    forall i | 0 <= i < |notes|
      ensures UniqueKeys(NoteFiles(s)(notes[i]), PathKey)
    {
      assert notes[i] in notes;
      NoteFilesAreDistinct(c.env, s, notes[i]);
    }
    forall i, j | 0 <= i < j < |notes|
      ensures KeysApart(NoteFiles(s)(notes[i]), NoteFiles(s)(notes[j]), PathKey)
    {
      assert notes[i] in notes && notes[j] in notes;
      NotesAreApart(c.env, s, notes[i], notes[j]);
    }
    UniqueFlatten(NoteFiles(s), notes, PathKey);
    OwnersBibliographyIsApart(c, s, items, o);
    UniqueConcatenation(Flatten(Map(NoteFiles(s), notes)), [BibliographyFile(c.csl, items)(o)], PathKey);
    OwnerFilesIs(c.csl, s, items, o);
  }

  lemma {:induction false} OwnedFileIsElsewhere(env: Environment, s: Snapshot, o: Identity, f: File)
    requires Exportable(env, s) && f in Flatten(Map(NoteFiles(s), NotesOf(s, o)))
    ensures f.path != BibliographyPath(DirectoryOf(o))
  {
    var notes := NotesOf(s, o);
    FlattenMembers(NoteFiles(s), notes, f);
    var i :| 0 <= i < |notes| && f in NoteFiles(s)(notes[i]);
    assert notes[i] in notes;
    NotesOfOwner(s, o);
    BibliographyIsApart(env, s, notes[i], o, f);
  }

  lemma {:induction false} OwnersBibliographyIsApart(c: Codec, s: Snapshot, items: seq<BibliographyItem>, o: Identity)
    requires Exportable(c.env, s)
    ensures KeysApart(Flatten(Map(NoteFiles(s), NotesOf(s, o))), [BibliographyFile(c.csl, items)(o)], PathKey)
  {
    var files := Flatten(Map(NoteFiles(s), NotesOf(s, o)));
    forall x | x in files
      ensures x.path != BibliographyPath(DirectoryOf(o))
    {
      OwnedFileIsElsewhere(c.env, s, o, x);
    }
    PathsTellApart(files, [BibliographyFile(c.csl, items)(o)]);
  }

  lemma {:induction false} NotesOfOwnerAreDistinct(s: Snapshot, o: Identity)
    requires NotesOk(s.notes)
    ensures forall i, j | 0 <= i < j < |NotesOf(s, o)| :: NotesOf(s, o)[i] != NotesOf(s, o)[j]
  {
    var notes := NotesOf(s, o);
    UniqueNotes(s.notes);
    FilterKeepsUnique(IsLive, s.notes, NoteIdKey);
    FilterKeepsUnique(Owned(OwnerOf, o), LiveNotes(s), NoteIdKey);
    UniqueKeysOfSort(Filter(Owned(OwnerOf, o), LiveNotes(s)), NoteIdKey);
    forall i, j | 0 <= i < j < |notes|
      ensures notes[i] != notes[j]
    {
      assert NoteIdKey(notes[i]) != NoteIdKey(notes[j]);
    }
  }

  // The files of two owners share a path exactly when the owners share a directory.
  lemma {:induction false} OwnersAreApart(c: Codec, s: Snapshot, items: seq<BibliographyItem>, o: Identity, p: Identity)
    requires Exportable(c.env, s) && o != p
    ensures KeysApart(OwnerFiles(c.csl, s, items)(o), OwnerFiles(c.csl, s, items)(p), PathKey)
            <==> DirectoryOf(o) != DirectoryOf(p)
  {
    BibliographyPathGivesDirectory(DirectoryOf(o), DirectoryOf(p));
    OwnerFilesAre(c.csl, s, items, o, BibliographyFile(c.csl, items)(o));
    OwnerFilesAre(c.csl, s, items, p, BibliographyFile(c.csl, items)(p));
    PathsTellApart(OwnerFiles(c.csl, s, items)(o), OwnerFiles(c.csl, s, items)(p));
    if DirectoryOf(o) == DirectoryOf(p) {
      assert BibliographyFile(c.csl, items)(o).path == BibliographyFile(c.csl, items)(p).path;
    } else {
      forall x, y | x in OwnerFiles(c.csl, s, items)(o) && y in OwnerFiles(c.csl, s, items)(p)
        ensures x.path != y.path
      {
        FilesOfOwnersDiffer(c, s, items, o, p, x, y);
      }
    }
  }

  lemma {:induction false} FilesOfOwnersDiffer(c: Codec, s: Snapshot, items: seq<BibliographyItem>, o: Identity,
                                               p: Identity, x: File, y: File)
    requires Exportable(c.env, s) && o != p && DirectoryOf(o) != DirectoryOf(p)
    requires x in OwnerFiles(c.csl, s, items)(o) && y in OwnerFiles(c.csl, s, items)(p)
    ensures x.path != y.path
  {
    OwnerFilesAre(c.csl, s, items, o, x);
    OwnerFilesAre(c.csl, s, items, p, y);
    NotesOfOwner(s, o);
    NotesOfOwner(s, p);
    BibliographyPathGivesDirectory(DirectoryOf(o), DirectoryOf(p));
    if x == BibliographyFile(c.csl, items)(o) {
      if y != BibliographyFile(c.csl, items)(p) {
        var m :| m in NotesOf(s, p) && y in NoteFiles(s)(m);
        BibliographyIsApart(c.env, s, m, o, y);
      }
    } else {
      var n :| n in NotesOf(s, o) && x in NoteFiles(s)(n);
      if y == BibliographyFile(c.csl, items)(p) {
        BibliographyIsApart(c.env, s, n, p, x);
      } else {
        var m :| m in NotesOf(s, p) && y in NoteFiles(s)(m);
        NotePathsDiffer(c.env, s, n, m, x, y);
      }
    }
  }

  lemma {:induction false} OwnersAreApartIff(c: Codec, s: Snapshot, items: seq<BibliographyItem>, owners: seq<Identity>)
    requires Exportable(c.env, s) && DistinctIdentities(owners)
    ensures PartsApart(OwnerFiles(c.csl, s, items), owners, PathKey) <==> DirectoriesDiffer(owners)
  {
    forall i, j | 0 <= i < j < |owners|
      ensures KeysApart(OwnerFiles(c.csl, s, items)(owners[i]), OwnerFiles(c.csl, s, items)(owners[j]), PathKey)
         <==> DirectoryOf(owners[i]) != DirectoryOf(owners[j])
    {
      OwnersAreApart(c, s, items, owners[i], owners[j]);
    }
  }

  // An export can be read back exactly when no two of its owners share a directory.
  lemma {:induction false} ExportReadsBackIff(c: Codec, s: Snapshot, items: seq<BibliographyItem>)
    requires Exportable(c.env, s)
    ensures ReadBack(ExportOf(c, s, items).files).Some? <==> DirectoriesDiffer(Owners(s, items))
  {
    var owners := Owners(s, items);
    forall i | 0 <= i < |owners|
      ensures UniqueKeys(OwnerFiles(c.csl, s, items)(owners[i]), PathKey)
    {
      OwnerFilesAreDistinct(c, s, items, owners[i]);
    }
    OwnersAreDistinct(s, items);
    OwnersAreApartIff(c, s, items, owners);
    UniqueFlatten(OwnerFiles(c.csl, s, items), owners, PathKey);
    DistinctMeansUnique(ExportOf(c, s, items).files);
  }

  // ---------------------------------------------------------------- every file is found

  lemma {:induction false} CollectedFinds(files: seq<File>, path: string, contents: seq<Byte>)
    requires exists f | f in files :: f.path == path
    requires forall f | f in files && f.path == path :: f.contents == contents
    ensures path in Collected(files) && Collected(files)[path] == contents
  {
    var last := |files| - 1;
    assert files == files[..last] + [files[last]];
    if files[last].path != path {
      CollectedFinds(files[..last], path, contents);
    } else {
      assert files[last] in files;
    }
  }

  lemma {:induction false} NoteFileIsFound(c: Codec, s: Snapshot, items: seq<BibliographyItem>, n: Note)
    requires Exportable(c.env, s) && n in LiveNotes(s)
    ensures var files := Collected(ExportOf(c, s, items).files);
            PathOf(n) in files && files[PathOf(n)] == Utf8(n.source)
  {
    NoteIsExported(c, s, items, n);
    forall f | f in ExportOf(c, s, items).files && f.path == PathOf(n)
      ensures f.contents == Utf8(n.source)
    {
      NoteFileIsAlone(c, s, items, n, f);
    }
    CollectedFinds(ExportOf(c, s, items).files, PathOf(n), Utf8(n.source));
  }

  lemma {:induction false} AttachmentFileIsFound(c: Codec, s: Snapshot, items: seq<BibliographyItem>, n: Note,
                                                 a: StoredAttachment)
    requires Exportable(c.env, s) && n in LiveNotes(s) && a in CurrentAttachments(s, n)
    ensures var path := FileOfAttachment(n, a).path;
            var files := Collected(ExportOf(c, s, items).files);
            path in files && files[path] == a.bytes
  {
    AttachmentIsExported(c, s, items, n, a);
    forall f | f in ExportOf(c, s, items).files && f.path == FileOfAttachment(n, a).path
      ensures f.contents == a.bytes
    {
      AttachmentFileIsAlone(c, s, items, n, a, f);
    }
    CollectedFinds(ExportOf(c, s, items).files, FileOfAttachment(n, a).path, a.bytes);
  }

  lemma {:induction false} BibliographyFileIsFound(c: Codec, s: Snapshot, items: seq<BibliographyItem>, o: Identity)
    requires Exportable(c.env, s) && DirectoriesDiffer(Owners(s, items)) && o in Owners(s, items)
    ensures var path := BibliographyPath(DirectoryOf(o));
            var files := Collected(ExportOf(c, s, items).files);
            path in files && files[path] == BibliographyFile(c.csl, items)(o).contents
  {
    BibliographyIsExported(c, s, items, o);
    forall f | f in ExportOf(c, s, items).files && f.path == BibliographyPath(DirectoryOf(o))
      ensures f.contents == BibliographyFile(c.csl, items)(o).contents
    {
      BibliographyFileIsAlone(c, s, items, o, f);
    }
    CollectedFinds(ExportOf(c, s, items).files, BibliographyPath(DirectoryOf(o)),
                   BibliographyFile(c.csl, items)(o).contents);
  }
}
