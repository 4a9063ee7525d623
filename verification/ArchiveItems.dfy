// The bibliography items of an archive: how they are read, and when the builders accept them beside the other
// records (crates/marginalis-archive/src/archive.rs, crates/marginalis-application/src/snapshot.rs).
module ArchiveItems {
  import opened Options
  import opened Domain
  import opened Sequences
  import opened Sorting
  import opened Principals
  import opened Snapshots
  import opened ArchiveContents
  import opened ArchivePrincipals
  import opened ArchiveReading
  import opened Bibliographies
  import opened DocumentImports

  function ReadItem(env: Environment, csl: Csl, principals: seq<Principal>,
                    item: ArchiveItem): Option<BibliographyItem> {
    var itemId, owner, revision := env.parseId(item.itemId), RefOf(env, principals, item.owner),
        RevisionOf(item.revision);
    if itemId.None? || owner.None? || revision.None? then None
    else if item.createdAt > item.updatedAt || !Restores(csl, item.citationKey, item.csl) then None
    else
      var value := csl.parse(csl.textOf(item.csl)).value;
      Some(BibliographyItem(itemId.value, owner.value, item.citationKey, csl.textOf(value), item.createdAt,
                            item.updatedAt,
                            revision.value))
  }

  function ItemReader(env: Environment, csl: Csl, principals: seq<Principal>): ArchiveItem -> Option<BibliographyItem> {
    (item: ArchiveItem) => ReadItem(env, csl, principals, item)
  }

  // What is known of an item that was read.
  predicate ItemStored(env: Environment, csl: Csl, item: BibliographyItem) {
    && env.parseId(item.itemId) == Some(item.itemId) && env.validIdentity(item.owner.primary)
    && item.createdAt <= item.updatedAt
    && ValidItem(csl, item) && Restores(csl, item.citationKey, ValueOf(csl)(item))
  }

  lemma {:induction false} ReadItemIsStored(env: Environment, csl: Csl, principals: seq<Principal>, item: ArchiveItem)
    requires Lawful(env) && LawfulCsl(csl) && Declared(principals) && ReadItem(env, csl, principals, item).Some?
    ensures ItemStored(env, csl, ReadItem(env, csl, principals, item).value)
    ensures Resolves(principals, ReadItem(env, csl, principals, item).value.owner)
  {
    RefResolves(env, principals, item.owner);
    var text := csl.textOf(item.csl);
    var value := csl.parse(text).value;
    assert csl.parse(csl.textOf(csl.parse(text).value)) == csl.parse(text);
    var read := ReadItem(env, csl, principals, item).value;
    assert ValueOf(csl)(read) == value;
  }

  // ---------------------------------------------------------------- the builders

  // The check of `with_bibliography_data`: no ID twice, and no citation key twice for one owner.
  predicate ItemsOk(items: seq<BibliographyItem>) {
    forall i, j | 0 <= i < j < |items| ::
      && items[i].itemId != items[j].itemId
      && !(items[i].owner.id == items[j].owner.id && items[i].citationKey == items[j].citationKey)
  }

  function OwnerRef(item: BibliographyItem): PrincipalRef { item.owner }

  // The references of a snapshot that has these items.
  function AllReferences(s: Snapshot, items: seq<BibliographyItem>): seq<PrincipalRef> {
    PrincipalReferences(s) + Map(OwnerRef, items)
  }

  function IncludedWith(s: Snapshot, items: seq<BibliographyItem>): Option<Snapshot> {
    var principals := Include(s.principals, AllReferences(s, items));
    if principals.None? then None else Some(s.(principals := principals.value))
  }

  function WithItems(s: Snapshot, items: seq<BibliographyItem>): Option<Snapshot> {
    if ItemsOk(items) then IncludedWith(s, items) else None
  }

  function DeclaredWith(s: Snapshot, items: seq<BibliographyItem>, principals: seq<Principal>): Option<Snapshot> {
    var replaced := s.(principals := principals);
    if PrincipalsOk(principals) && AllResolve(principals, AllReferences(replaced, items)) then Some(replaced) else None
  }

  function AttachedWith(s: Snapshot, items: seq<BibliographyItem>, attachments: seq<StoredAttachment>,
                        references: seq<AttachmentReference>): Option<Snapshot>
  {
    var a, r := Sort(attachments, AttachmentIdKey), Sort(references, ReferenceKey);
    if AttachmentsOk(s, a) && ReferencesOk(s, a, r) then IncludedWith(s.(attachments := a, references := r), items)
    else None
  }

  // The builders one after the other, with the items.
  function AssembleWith(p: Parts, items: seq<BibliographyItem>): Option<Snapshot> {
    var s := New(p.notes, p.acl);
    if s.None? then None
    else
      var t := WithNoteRevisions(s.value, p.revisions);
      if t.None? then None
      else
        var u := WithItems(t.value, items);
        if u.None? then None
        else
          var v := DeclaredWith(u.value, items, p.principals);
          if v.None? then None else AttachedWith(v.value, items, p.attachments, Flatten(p.references))
  }

  predicate OwnersResolve(principals: seq<Principal>, items: seq<BibliographyItem>) {
    forall i | 0 <= i < |items| :: Resolves(principals, items[i].owner)
  }

  lemma {:induction false} AllReferencesResolve(principals: seq<Principal>, s: Snapshot, items: seq<BibliographyItem>)
    requires AllResolve(principals, PrincipalReferences(s)) && OwnersResolve(principals, items)
    ensures AllResolve(principals, AllReferences(s, items))
  {
    AllResolveSplits(principals, PrincipalReferences(s), Map(OwnerRef, items));
  }

  // The snapshot before the items are added.
  lemma {:induction false} RevisionsOfParts(p: Parts, s: Snapshot)
    requires PartsResolve(p) && Declared(s.principals) && FromDeclared(p.principals, s.principals)
    requires s == Snapshot(s.principals, p.notes, s.revisions, [], [], p.acl) && WithNoteRevisions(s, p.revisions).Some?
    ensures var t := WithNoteRevisions(s, p.revisions).value;
            && Declared(t.principals) && FromDeclared(p.principals, t.principals)
            && t.(principals := p.principals) == Declaring(p)
            && PrincipalReferences(t) == PrincipalReferences(Declaring(p))
  {
    HistoriesOfParts(p, s);
    DeclaringResolves(p);
    var t := s.(revisions := Sort(p.revisions, RevisionKey));
    assert PrincipalReferences(t) == PrincipalReferences(Declaring(p));
    IncludeOfDeclared(p.principals, s.principals, PrincipalReferences(t));
  }

  lemma {:induction false} ItemsOfParts(p: Parts, items: seq<BibliographyItem>, t: Snapshot)
    requires PartsResolve(p) && OwnersResolve(p.principals, items)
    requires Declared(t.principals) && FromDeclared(p.principals, t.principals)
    requires t.(principals := p.principals) == Declaring(p)
    requires PrincipalReferences(t) == PrincipalReferences(Declaring(p))
    ensures IncludedWith(t, items).Some?
    ensures DeclaredWith(IncludedWith(t, items).value, items, p.principals) == Some(Declaring(p))
  {
    DeclaringResolves(p);
    AllReferencesResolve(p.principals, Declaring(p), items);
    AllReferencesResolve(p.principals, t, items);
    IncludeOfDeclared(p.principals, t.principals, AllReferences(t, items));
  }

  lemma {:induction false} AttachmentsOfParts(p: Parts, items: seq<BibliographyItem>)
    requires PartsResolve(p) && OwnersResolve(p.principals, items)
    ensures IncludedWith(Assembled(p), items) == Some(Assembled(p))
  {
    AssembledResolves(p);
    AllReferencesResolve(p.principals, Assembled(p), items);
    IncludeOfResolved(p.principals, AllReferences(Assembled(p), items));
  }

  // Beside the other records, items are accepted exactly when they repeat no ID and no key of an owner.
  lemma {:induction false} AssembleWithIff(p: Parts, items: seq<BibliographyItem>)
    requires PartsResolve(p) && OwnersResolve(p.principals, items)
    ensures AssembleWith(p, items) == if PartsOk(p) && ItemsOk(items) then Some(Assembled(p)) else None
  {
    if NotesOk(p.notes) && AclsOk(p.notes, p.acl) {
      NewOfParts(p);
      var s := New(p.notes, p.acl).value;
      HistoriesOfParts(p, s);
      if WithNoteRevisions(s, p.revisions).Some? {
        RevisionsOfParts(p, s);
        ItemsOfParts(p, items, WithNoteRevisions(s, p.revisions).value);
        AttachmentsOfParts(p, items);
      }
    }
  }

  // ---------------------------------------------------------------- archives with items

  function ContentsWith(env: Environment, csl: Csl, r: Rebuilding): Option<Snapshot>
    requires HasParts(r.archive)
  {
    var p := ReadParts(env, r.archive);
    if p.None? then None
    else
      var items := Traverse(ItemReader(env, csl, p.value.principals), r.items);
      if items.None? then None else AssembleWith(p.value, items.value)
  }

  function ValidateWith(env: Environment, csl: Csl, r: Rebuilding): Option<Snapshot> {
    var a := r.archive;
    if a.format != ARCHIVE_FORMAT || a.packageVersion != env.packageVersion
       || a.profileVersion != ARCHIVE_NOTE_PROFILE_VERSION
       || !HasProvenance(a) || !HasParts(a)
    then None
    else ContentsWith(env, csl, r)
  }

  predicate ItemsRead(env: Environment, csl: Csl, principals: seq<Principal>, items: seq<ArchiveItem>) {
    && Traverse(ItemReader(env, csl, principals), items).Some?
    && ItemsOk(Traverse(ItemReader(env, csl, principals), items).value)
  }

  lemma {:induction false} ReadOwnersResolve(env: Environment, csl: Csl, principals: seq<Principal>,
                                             items: seq<ArchiveItem>)
    requires Declared(principals) && Traverse(ItemReader(env, csl, principals), items).Some?
    ensures OwnersResolve(principals, Traverse(ItemReader(env, csl, principals), items).value)
  {
    var read := Traverse(ItemReader(env, csl, principals), items).value;
    TraverseLength(ItemReader(env, csl, principals), items);
    forall i | 0 <= i < |read|
      ensures Resolves(principals, read[i].owner)
    {
      TraverseAt(ItemReader(env, csl, principals), items, i);
      RefResolves(env, principals, items[i].owner);
    }
  }

  lemma {:induction false} ContentsWithIffPartsOk(env: Environment, csl: Csl, r: Rebuilding)
    requires HasParts(r.archive)
    ensures ContentsWith(env, csl, r).Some?
            <==> && ReadParts(env, r.archive).Some? && PartsOk(ReadParts(env, r.archive).value)
                 && ItemsRead(env, csl, ReadParts(env, r.archive).value.principals, r.items)
    ensures ContentsWith(env, csl, r).Some? ==>
              ContentsWith(env, csl, r).value == Assembled(ReadParts(env, r.archive).value)
  {
    if ReadParts(env, r.archive).Some? {
      var p := ReadParts(env, r.archive).value;
      ReadPartsResolve(env, r.archive);
      if Traverse(ItemReader(env, csl, p.principals), r.items).Some? {
        ReadOwnersResolve(env, csl, p.principals, r.items);
        AssembleWithIff(p, Traverse(ItemReader(env, csl, p.principals), r.items).value);
      }
    }
  }

  // An archive with items is accepted exactly when it is accepted without them, and they read and repeat
  // nothing.
  lemma {:induction false} ValidateWithIff(env: Environment, csl: Csl, r: Rebuilding)
    ensures ValidateWith(env, csl, r).Some?
            <==> && Validate(env, r.archive).Some?
                 && ItemsRead(env, csl, ReadParts(env, r.archive).value.principals, r.items)
    ensures ValidateWith(env, csl, r).Some? ==> ValidateWith(env, csl, r) == Validate(env, r.archive)
  {
    if HasParts(r.archive) {
      ContentsWithIffPartsOk(env, csl, r);
      ContentsIffPartsOk(env, r.archive);
    }
  }
}
