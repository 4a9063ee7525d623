// What an archive that is read becomes: the builders accept it exactly when the records fit together,
// whatever order the principals were met in (`validate_archive_contents` in
// crates/marginalis-archive/src/archive.rs).
module ArchiveReading {
  import opened Options
  import opened Domain
  import opened Sequences
  import opened Sorting
  import opened Principals
  import opened Snapshots
  import opened Archives
  import opened ArchiveContents
  import opened ArchivePrincipals

  lemma {:induction false} TraverseAt<A, B>(f: A -> Option<B>, s: seq<A>, i: nat)
    requires Traverse(f, s).Some? && i < |s|
    ensures |Traverse(f, s).value| == |s| && f(s[i]) == Some(Traverse(f, s).value[i])
  {
    if i > 0 {
      TraverseAt(f, s[1..], i - 1);
    } else if |s| > 1 {
      TraverseAt(f, s[1..], 0);
    }
  }

  lemma {:induction false} TraverseLength<A, B>(f: A -> Option<B>, s: seq<A>)
    requires Traverse(f, s).Some?
    ensures |Traverse(f, s).value| == |s|
  {
    if s != [] {
      TraverseAt(f, s, 0);
    }
  }

  // Reading succeeds when every element reads.
  lemma {:induction false} TraverseAll<A, B>(f: A -> Option<B>, s: seq<A>, t: seq<B>)
    requires |s| == |t| && forall i | 0 <= i < |s| :: f(s[i]) == Some(t[i])
    ensures Traverse(f, s) == Some(t)
  {
    if s != [] {
      TraverseAll(f, s[1..], t[1..]);
      assert t == [t[0]] + t[1..];
    }
  }

  lemma {:induction false} TraverseOfMap<T, A, B>(f: A -> Option<B>, written: T -> A, read: T -> B, s: seq<T>)
    requires forall t | t in s :: f(written(t)) == Some(read(t))
    ensures Traverse(f, Map(written, s)) == Some(Map(read, s))
  {
    TraverseAll(f, Map(written, s), Map(read, s));
  }

  // ---------------------------------------------------------------- references resolve

  lemma {:induction false} ReviewResolves(env: Environment, principals: seq<Principal>, owner: PrincipalRef,
                                          f: ReviewFields)
    requires Declared(principals) && ReadReview(env, principals, owner, f).Some?
    ensures var review := ReadReview(env, principals, owner, f).value;
            LastReview(review).Some? ==> Resolves(principals, LastReview(review).value.reviewer)
  {
    if f.issuer.Some? && f.subject.Some? {
      var identity := Identity(f.issuer.value, f.subject.value);
      if RefOf(env, principals, identity).Some? {
        RefResolves(env, principals, identity);
      }
    }
  }

  lemma {:induction false} ReadNoteResolves(env: Environment, principals: seq<Principal>, n: ArchiveNote)
    requires Declared(principals) && ReadNote(env, principals, n).Some?
    ensures NoteResolves(principals, ReadNote(env, principals, n).value)
  {
    RefResolves(env, principals, n.creator);
    if n.provenance.Some? {
      ReviewResolves(env, principals, RefOf(env, principals, n.creator).value, n.provenance.value.review);
    }
  }

  lemma {:induction false} ReadRevisionResolves(env: Environment, principals: seq<Principal>, notes: seq<Note>,
                                                e: ArchiveRevision)
    requires Declared(principals) && ReadRevision(env, principals, notes, e).Some?
    ensures RevisionResolves(principals, ReadRevision(env, principals, notes, e).value)
  {
    RefResolves(env, principals, e.changedBy);
    var current := CurrentNote(notes, env.parseId(e.noteId).value);
    ReviewResolves(env, principals, current.value.owner, e.review);
  }

  // Every principal that the records name is declared.
  predicate PartsResolve(p: Parts) {
    && Declared(p.principals)
    && (forall i | 0 <= i < |p.notes| :: NoteResolves(p.principals, p.notes[i]))
    && (forall i | 0 <= i < |p.revisions| :: RevisionResolves(p.principals, p.revisions[i]))
    && (forall i | 0 <= i < |p.acl| :: Resolves(p.principals, p.acl[i].principal))
    && forall i | 0 <= i < |p.attachments| :: Resolves(p.principals, p.attachments[i].createdBy)
  }

  lemma {:induction false} ReadPartsResolve(env: Environment, a: Archive)
    requires HasParts(a) && ReadParts(env, a).Some?
    ensures PartsResolve(ReadParts(env, a).value)
  {
    var p := ReadParts(env, a).value;
    DeclaredPrincipalsAreDeclared(env, a.principals.value);
    forall i | 0 <= i < |p.notes|
      ensures NoteResolves(p.principals, p.notes[i])
    {
      TraverseLength(NoteReader(env, p.principals), a.notes);
      TraverseAt(NoteReader(env, p.principals), a.notes, i);
      ReadNoteResolves(env, p.principals, a.notes[i]);
    }
    forall i | 0 <= i < |p.revisions|
      ensures RevisionResolves(p.principals, p.revisions[i])
    {
      TraverseLength(RevisionReader(env, p.principals, p.notes), a.revisions.value);
      TraverseAt(RevisionReader(env, p.principals, p.notes), a.revisions.value, i);
      ReadRevisionResolves(env, p.principals, p.notes, a.revisions.value[i]);
    }
    forall i | 0 <= i < |p.acl|
      ensures Resolves(p.principals, p.acl[i].principal)
    {
      TraverseLength(AclReader(env, p.principals), a.acl);
      TraverseAt(AclReader(env, p.principals), a.acl, i);
      RefResolves(env, p.principals, a.acl[i].identity);
    }
    forall i | 0 <= i < |p.attachments|
      ensures Resolves(p.principals, p.attachments[i].createdBy)
    {
      TraverseLength(AttachmentReader(env, p.principals), a.attachments.value);
      TraverseAt(AttachmentReader(env, p.principals), a.attachments.value, i);
      RefResolves(env, p.principals, a.attachments.value[i].createdBy);
    }
  }

  // ---------------------------------------------------------------- principals met on the way

  // Principals that were included for references into the declared table.
  predicate FromDeclared(declared: seq<Principal>, principals: seq<Principal>) {
    forall i | 0 <= i < |principals| ::
      && principals[i] == Single(PrincipalRef(principals[i].id, principals[i].primary))
      && Resolves(declared, PrincipalRef(principals[i].id, principals[i].primary))
  }

  // Including references into one declared table never fails.
  lemma {:induction false} IncludeOfDeclared(declared: seq<Principal>, principals: seq<Principal>,
                                             references: seq<PrincipalRef>)
    requires Declared(declared) && Declared(principals) && FromDeclared(declared, principals)
             && AllResolve(declared, references)
    ensures Include(principals, references).Some?
    ensures Declared(Include(principals, references).value)
    ensures FromDeclared(declared, Include(principals, references).value)
    decreases |references|
  {
    if references != [] {
      var r := references[0];
      assert Resolves(declared, r);
      var k := FindFinds(principals, r.id);
      assert AllResolve(declared, references[1..]) by {
        assert forall i | 0 <= i < |references[1..]| :: references[1..][i] == references[i + 1];
      }
      if Find(principals, r.id).Some? {
        ResolvedPairsAgree(declared, r, PrincipalRef(principals[k].id, principals[k].primary));
        IncludeOfDeclared(declared, principals, references[1..]);
      } else {
        NotOwned(declared, principals, r);
        AppendSingle(principals, r);
        var longer := principals + [Single(r)];
        assert FromDeclared(declared, longer);
        IncludeOfDeclared(declared, longer, references[1..]);
      }
    }
  }

  lemma {:induction false} NotOwned(declared: seq<Principal>, principals: seq<Principal>, r: PrincipalRef)
    requires Declared(declared) && FromDeclared(declared, principals) && Resolves(declared, r)
    requires forall i | 0 <= i < |principals| :: principals[i].id != r.id
    ensures !Owned(principals, r.primary)
  {
    forall i | 0 <= i < |principals|
      ensures r.primary !in principals[i].identities
    {
      ResolvedPairsAgree(declared, r, PrincipalRef(principals[i].id, principals[i].primary));
    }
  }

  // ---------------------------------------------------------------- the builders in a row

  function Declaring(p: Parts): Snapshot {
    Snapshot(p.principals, p.notes, Sort(p.revisions, RevisionKey), [], [], p.acl)
  }

  // The records fit together.
  predicate PartsOk(p: Parts) {
    && NotesOk(p.notes) && AclsOk(p.notes, p.acl)
    && RevisionsOk(p.notes, Sort(p.revisions, RevisionKey)) && HistoriesOk(p.notes, Sort(p.revisions, RevisionKey))
    && AttachmentsOk(Declaring(p), Sort(p.attachments, AttachmentIdKey))
    && ReferencesOk(Declaring(p), Sort(p.attachments, AttachmentIdKey), Sort(Flatten(p.references), ReferenceKey))
  }

  function Assembled(p: Parts): Snapshot {
    Declaring(p).(attachments := Sort(p.attachments, AttachmentIdKey),
                  references := Sort(Flatten(p.references), ReferenceKey))
  }

  lemma {:induction false} NewOfParts(p: Parts)
    requires PartsResolve(p) && NotesOk(p.notes) && AclsOk(p.notes, p.acl)
    ensures New(p.notes, p.acl).Some?
    ensures var s := New(p.notes, p.acl).value;
            Declared(s.principals) && FromDeclared(p.principals, s.principals)
            && s == Snapshot(s.principals, p.notes, Map(Baseline, p.notes), [], [], p.acl)
  {
    var s := Snapshot([], p.notes, Map(Baseline, p.notes), [], [], p.acl);
    forall i | 0 <= i < |s.revisions|
      ensures RevisionResolves(p.principals, s.revisions[i])
    {
      assert NoteResolves(p.principals, p.notes[i]);
    }
    ReferencesCoverRecords(s.(principals := p.principals));
    assert PrincipalReferences(s.(principals := p.principals)) == PrincipalReferences(s);
    IncludeOfDeclared(p.principals, [], PrincipalReferences(s));
  }

  lemma {:induction false} HistoriesOfParts(p: Parts, s: Snapshot)
    requires PartsResolve(p) && Declared(s.principals) && FromDeclared(p.principals, s.principals)
    requires s == Snapshot(s.principals, p.notes, s.revisions, [], [], p.acl)
    ensures WithNoteRevisions(s, p.revisions).Some?
       <==> RevisionsOk(p.notes, Sort(p.revisions, RevisionKey)) && HistoriesOk(p.notes, Sort(p.revisions, RevisionKey))
    ensures WithNoteRevisions(s, p.revisions).Some? ==>
              var t := WithNoteRevisions(s, p.revisions).value;
              t.(principals := p.principals) == Declaring(p)
  {
    DeclaringResolves(p);
    var t := s.(revisions := Sort(p.revisions, RevisionKey));
    assert PrincipalReferences(t) == PrincipalReferences(Declaring(p));
    IncludeOfDeclared(p.principals, s.principals, PrincipalReferences(t));
  }

  lemma {:induction false} DeclaringResolves(p: Parts)
    requires PartsResolve(p)
    ensures AllResolve(p.principals, PrincipalReferences(Declaring(p)))
  {
    var d := Declaring(p);
    SortMembers(p.revisions, RevisionKey);
    forall i | 0 <= i < |d.revisions|
      ensures RevisionResolves(d.principals, d.revisions[i])
    {
      assert d.revisions[i] in p.revisions;
    }
    ReferencesCoverRecords(d);
  }

  lemma {:induction false} AssembledResolves(p: Parts)
    requires PartsResolve(p)
    ensures AllResolve(p.principals, PrincipalReferences(Assembled(p)))
  {
    DeclaringResolves(p);
    ReferencesCoverRecords(Declaring(p));
    var s := Assembled(p);
    SortMembers(p.attachments, AttachmentIdKey);
    forall i | 0 <= i < |s.attachments|
      ensures Resolves(s.principals, s.attachments[i].createdBy)
    {
      assert s.attachments[i] in p.attachments;
    }
    ReferencesCoverRecords(s);
  }

  // The builders accept exactly the records that fit together, and the result declares the table of
  // the archive, not the principals met on the way.
  lemma {:induction false} AssembleIffPartsOk(p: Parts)
    requires PartsResolve(p)
    ensures Assemble(p) == if PartsOk(p) then Some(Assembled(p)) else None
  {
    if NotesOk(p.notes) && AclsOk(p.notes, p.acl) {
      NewOfParts(p);
      var s := New(p.notes, p.acl).value;
      HistoriesOfParts(p, s);
      if WithNoteRevisions(s, p.revisions).Some? {
        var t := WithNoteRevisions(s, p.revisions).value;
        DeclaringResolves(p);
        assert WithPrincipals(t, p.principals) == Some(Declaring(p));
        AssembledResolves(p);
        IncludeOfResolved(p.principals, PrincipalReferences(Assembled(p)));
      }
    }
  }

  // Reading succeeds exactly when every record reads and the records fit together.
  lemma {:induction false} ContentsIffPartsOk(env: Environment, a: Archive)
    requires HasParts(a)
    ensures Contents(env, a).Some? <==> ReadParts(env, a).Some? && PartsOk(ReadParts(env, a).value)
    ensures Contents(env, a).Some? ==> Contents(env, a).value == Assembled(ReadParts(env, a).value)
  {
    if ReadParts(env, a).Some? {
      ReadPartsResolve(env, a);
      AssembleIffPartsOk(ReadParts(env, a).value);
    }
  }
}
