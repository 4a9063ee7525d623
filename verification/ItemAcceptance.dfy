// Exactly when an import is accepted with its bibliography items
// (crates/marginalis-archive/src/documents.rs, crates/marginalis-archive/src/archive.rs).
module ItemAcceptance {
  import opened Options
  import opened Domain
  import opened Sorting
  import opened Principals
  import opened Archives
  import opened ArchiveContents
  import opened ArchiveReading
  import opened ArchiveItems
  import opened AcceptedContents
  import opened JsonValues
  import opened Bibliographies
  import opened DocumentPaths
  import opened DocumentExports
  import opened DocumentImports
  import opened DocumentRows
  import opened DocumentGrouping
  import opened DocumentRoundTrip
  import opened DocumentConservation
  import opened DocumentFiles
  import opened UneditedDocuments
  import opened RebuiltLists
  import opened RebuiltRecords
  import opened ImportAcceptance

  // ---------------------------------------------------------------- stored items

  function StoredIdKey(item: BibliographyItem): Key { [Points(item.itemId)] }

  function OwnedKey(item: BibliographyItem): Key {
    [Points(item.owner.primary.issuer), Points(item.owner.primary.subject), Points(item.citationKey)]
  }

  lemma {:induction false} OwnedKeysIdentify(a: BibliographyItem, b: BibliographyItem)
    ensures OwnedKey(a) == OwnedKey(b) <==> a.owner.primary == b.owner.primary && a.citationKey == b.citationKey
  {
    if OwnedKey(a) == OwnedKey(b) {
      assert OwnedKey(a)[0] == OwnedKey(b)[0] && OwnedKey(a)[1] == OwnedKey(b)[1] && OwnedKey(a)[2] == OwnedKey(b)[2];
      PointsInjective(a.owner.primary.issuer, b.owner.primary.issuer);
      PointsInjective(a.owner.primary.subject, b.owner.primary.subject);
      PointsInjective(a.citationKey, b.citationKey);
    }
  }

  // What is known of the bibliography of an accepted archive.
  ghost predicate ItemsStored(env: Environment, csl: Csl, items: seq<BibliographyItem>) {
    && (forall item | item in items :: ItemStored(env, csl, item))
    && UniqueKeys(items, StoredIdKey) && UniqueKeys(items, OwnedKey)
  }

  // It is what the builders check, when equal references have equal identities.
  lemma {:induction false} CheckedIsUnique(principals: seq<Principal>, items: seq<BibliographyItem>)
    requires Declared(principals) && OwnersResolve(principals, items)
    ensures ItemsOk(items) <==> UniqueKeys(items, StoredIdKey) && UniqueKeys(items, OwnedKey)
  {
    forall i, j | 0 <= i < j < |items|
      ensures StoredIdKey(items[i]) == StoredIdKey(items[j]) <==> items[i].itemId == items[j].itemId
      ensures OwnedKey(items[i]) == OwnedKey(items[j])
              <==> items[i].owner.id == items[j].owner.id && items[i].citationKey == items[j].citationKey
    {
      TextKeysIdentify(items[i].itemId, items[j].itemId);
      OwnedKeysIdentify(items[i], items[j]);
      ResolvedPairsAgree(principals, items[i].owner, items[j].owner);
    }
  }

  lemma {:induction false} StoredIsExportable(env: Environment, csl: Csl, items: seq<BibliographyItem>)
    requires ItemsStored(env, csl, items)
    ensures ItemsExportable(csl, items) && OwnersValid(env, items)
  {
    forall i | 0 <= i < |items|
      ensures ValidItem(csl, items[i])
    {
      assert items[i] in items;
    }
    forall i, j | 0 <= i < j < |items|
      ensures items[i].owner.primary != items[j].owner.primary || items[i].citationKey != items[j].citationKey
    {
      assert OwnedKey(items[i]) != OwnedKey(items[j]);
      OwnedKeysIdentify(items[i], items[j]);
    }
  }

  lemma {:induction false} ReadListIsStored(env: Environment, csl: Csl, table: seq<Principal>, items: seq<ArchiveItem>)
    requires Lawful(env) && LawfulCsl(csl) && Declared(table) && ItemsRead(env, csl, table, items)
    ensures ItemsStored(env, csl, Traverse(ItemReader(env, csl, table), items).value)
  {
    var read := Traverse(ItemReader(env, csl, table), items).value;
    ReadOwnersResolve(env, csl, table, items);
    CheckedIsUnique(table, read);
    TraverseLength(ItemReader(env, csl, table), items);
    forall item | item in read
      ensures ItemStored(env, csl, item)
    {
      var i :| 0 <= i < |read| && read[i] == item;
      TraverseAt(ItemReader(env, csl, table), items, i);
      ReadItemIsStored(env, csl, table, items[i]);
    }
  }

  // The items that an accepted archive has are stored items.
  lemma {:induction false} ReadItemsAreStored(env: Environment, csl: Csl, r: Rebuilding)
    requires Lawful(env) && LawfulCsl(csl) && ValidateWith(env, csl, r).Some?
    ensures HasParts(r.archive) && ReadParts(env, r.archive).Some?
    ensures var read := Traverse(ItemReader(env, csl, ReadParts(env, r.archive).value.principals), r.items);
            read.Some? && ItemsStored(env, csl, read.value)
  {
    ValidateWithIff(env, csl, r);
    ReadPartsResolve(env, r.archive);
    ReadListIsStored(env, csl, ReadParts(env, r.archive).value.principals, r.items);
  }

  // ---------------------------------------------------------------- items that come back

  // The value that an import finds for an item.
  function ValueFound(x: Import, item: BibliographyItem): Json {
    ItemIn(x.c, x.files)(item).csl
  }

  predicate ItemRestores(x: Import, item: BibliographyItem) {
    Restores(x.c.csl, item.citationKey, ValueFound(x, item))
  }

  predicate ItemsRestore(x: Import) {
    forall item | item in x.items :: ItemRestores(x, item)
  }

  lemma {:induction false} ItemInFields(c: Codec, files: Files, item: BibliographyItem)
    ensures ItemIn(c, files)(item) == ItemWith(item, ItemIn(c, files)(item).csl)
  {
    var values := ValuesIn(c, files, BibliographyPath(DirectoryOf(item.owner.primary)));
    assert ItemIn(c, files)(item) == ItemRowOf(item.owner.primary, values)(ItemDocument(item));
  }

  lemma {:induction false} ItemReadsIff(x: Import, table: seq<Principal>, item: BibliographyItem)
    requires ItemStored(x.c.env, x.c.csl, item) && RefOf(x.c.env, table, item.owner.primary).Some?
    ensures var read := ReadItem(x.c.env, x.c.csl, table, ItemIn(x.c, x.files)(item));
            && (read.Some? <==> ItemRestores(x, item))
            && (read.Some? ==>
                  && read.value.itemId == item.itemId && read.value.citationKey == item.citationKey
                  && read.value.owner == NewRef(x.c.env, table, item.owner.primary))
  {
    ItemInFields(x.c, x.files, item);
  }

  function ItemsInOrder(x: Import): seq<BibliographyItem> {
    Sort(GroupedItems(x.s, x.items), StoredIdKey)
  }

  lemma {:induction false} ItemList(x: Import)
    ensures RebuildingOf(CollectedBy(x), x.c.env.packageVersion).items == Map(ItemIn(x.c, x.files), ItemsInOrder(x))
  {
    CollectedItems(x);
    forall item
      ensures ItemIdKey(ItemIn(x.c, x.files)(item)) == StoredIdKey(item)
    {
      ItemInFields(x.c, x.files, item);
    }
    SortMaps(ItemIn(x.c, x.files), GroupedItems(x.s, x.items), StoredIdKey, ItemIdKey);
  }

  lemma {:induction false} CollectedItems(x: Import)
    ensures CollectedBy(x).items == Map(ItemIn(x.c, x.files), GroupedItems(x.s, x.items))
  {
    CollectedLists(x);
  }

  lemma {:induction false} ListedItems(x: Import)
    requires ItemsStored(x.c.env, x.c.csl, x.items)
    ensures forall item :: item in ItemsInOrder(x) <==> item in x.items
    ensures UniqueKeys(ItemsInOrder(x), StoredIdKey) && UniqueKeys(ItemsInOrder(x), OwnedKey)
  {
    var grouped := GroupedItems(x.s, x.items);
    GroupedItemsAreItems(x.s, x.items);
    SortPermutes(grouped, StoredIdKey);
    PermutationMembers(ItemsInOrder(x), x.items);
    UniqueKeysPermute(x.items, ItemsInOrder(x), StoredIdKey);
    UniqueKeysPermute(x.items, ItemsInOrder(x), OwnedKey);
  }

  function ItemAgain(x: Import, table: seq<Principal>): BibliographyItem -> BibliographyItem {
    (item: BibliographyItem) =>
      var read := ReadItem(x.c.env, x.c.csl, table, ItemIn(x.c, x.files)(item));
      if read.Some? then read.value else item
  }

  // What is assumed of the table.
  ghost predicate ItemOwnersNamed(x: Import, table: seq<Principal>) {
    Declared(table) && forall item | item in x.items :: RefOf(x.c.env, table, item.owner.primary).Some?
  }

  lemma {:induction false} ItemsAreReadAgain(x: Import, table: seq<Principal>)
    requires ItemsStored(x.c.env, x.c.csl, x.items) && ItemOwnersNamed(x, table)
    requires ItemsRestore(x)
    ensures Traverse(ItemReader(x.c.env, x.c.csl, table), Map(ItemIn(x.c, x.files), ItemsInOrder(x)))
            == Some(Map(ItemAgain(x, table), ItemsInOrder(x)))
  {
    var items := ItemsInOrder(x);
    ListedItems(x);
    forall item | item in items
      ensures ItemReader(x.c.env, x.c.csl, table)(ItemIn(x.c, x.files)(item)) == Some(ItemAgain(x, table)(item))
    {
      ItemReadsIff(x, table, item);
    }
    TraverseOfMap(ItemReader(x.c.env, x.c.csl, table), ItemIn(x.c, x.files), ItemAgain(x, table), items);
  }

  lemma {:induction false} ItemPairApart(x: Import, table: seq<Principal>, a: BibliographyItem, b: BibliographyItem)
    requires ItemOwnersNamed(x, table) && a in x.items && b in x.items
    requires ItemStored(x.c.env, x.c.csl, a) && ItemStored(x.c.env, x.c.csl, b)
    requires ItemRestores(x, a) && ItemRestores(x, b)
    requires StoredIdKey(a) != StoredIdKey(b) && OwnedKey(a) != OwnedKey(b)
    ensures var again := ItemAgain(x, table);
            && again(a).itemId != again(b).itemId
            && !(again(a).owner.id == again(b).owner.id && again(a).citationKey == again(b).citationKey)
  {
    ItemReadsIff(x, table, a);
    ItemReadsIff(x, table, b);
    OwnedKeysIdentify(a, b);
    NewRefsTellApart(x.c.env, table, a.owner.primary, b.owner.primary);
  }

  lemma {:induction false} ItemsStayApart(x: Import, table: seq<Principal>)
    requires ItemsStored(x.c.env, x.c.csl, x.items) && ItemOwnersNamed(x, table)
    requires ItemsRestore(x)
    ensures ItemsOk(Map(ItemAgain(x, table), ItemsInOrder(x)))
  {
    var items := ItemsInOrder(x);
    ListedItems(x);
    forall i, j | 0 <= i < j < |items|
      ensures var again := ItemAgain(x, table);
              && again(items[i]).itemId != again(items[j]).itemId
              && !(again(items[i]).owner.id == again(items[j]).owner.id
                   && again(items[i]).citationKey == again(items[j]).citationKey)
    {
      assert items[i] in items && items[j] in items;
      assert StoredIdKey(items[i]) != StoredIdKey(items[j]) && OwnedKey(items[i]) != OwnedKey(items[j]);
      ItemPairApart(x, table, items[i], items[j]);
    }
  }

  // The items that come back are accepted exactly when every value that is found restores as its item.
  lemma {:induction false} ItemsReadIff(x: Import, table: seq<Principal>)
    requires ItemsStored(x.c.env, x.c.csl, x.items) && ItemOwnersNamed(x, table)
    ensures ItemsRead(x.c.env, x.c.csl, table, Map(ItemIn(x.c, x.files), ItemsInOrder(x)))
            <==> ItemsRestore(x)
  {
    var reader := ItemReader(x.c.env, x.c.csl, table);
    if ItemsRestore(x) {
      ItemsAreReadAgain(x, table);
      ItemsStayApart(x, table);
    }
    if Traverse(reader, Map(ItemIn(x.c, x.files), ItemsInOrder(x))).Some? {
      ListedItems(x);
      forall item | item in x.items
        ensures ItemRestores(x, item)
      {
        MappedReads(reader, ItemIn(x.c, x.files), ItemsInOrder(x), item);
        ItemReadsIff(x, table, item);
      }
    }
  }

  // ---------------------------------------------------------------- acceptance

  lemma {:induction false} OwnersAreNamed(x: Import) returns (table: seq<Principal>)
    requires Readable(x.c.env, x.s) && OwnersValid(x.c.env, x.items)
    ensures DeclaredPrincipals(x.c.env, ArchiveBy(x).principals.value) == Some(table) && ItemOwnersNamed(x, table)
  {
    table := TableIsRebuilt(x);
    forall item | item in x.items
      ensures RefOf(x.c.env, table, item.owner.primary).Some?
    {
      assert ItemOwner(item) == item.owner.primary && IsNamed(x, ItemOwner(item));
    }
  }

  lemma {:induction false} ItemsDecide(env: Environment, csl: Csl, r: Rebuilding, table: seq<Principal>,
                                       items: seq<ArchiveItem>)
    requires r.archive.principals.Some? && DeclaredPrincipals(env, r.archive.principals.value) == Some(table)
    requires r.items == items
    ensures ValidateWith(env, csl, r).Some? <==> Validate(env, r.archive).Some? && ItemsRead(env, csl, table, items)
  {
    ValidateWithIff(env, csl, r);
  }

  lemma {:induction false} RebuiltWithItemsIff(x: Import)
    requires Readable(x.c.env, x.s) && ItemsStored(x.c.env, x.c.csl, x.items) && OwnersValid(x.c.env, x.items)
    ensures ValidateWith(x.c.env, x.c.csl, RebuildingOf(CollectedBy(x), x.c.env.packageVersion)).Some?
            <==> Validate(x.c.env, ArchiveBy(x)).Some? && ItemsRestore(x)
  {
    var table := OwnersAreNamed(x);
    ItemList(x);
    ItemsReadIff(x, table);
    ItemsDecide(x.c.env, x.c.csl, RebuildingOf(CollectedBy(x), x.c.env.packageVersion), table,
                Map(ItemIn(x.c, x.files), ItemsInOrder(x)));
  }

  // Whatever is done to the files of documents that were exported from an accepted archive: an import that
  // succeeds is accepted, with its items, exactly when every edited source is valid and uses the same
  // attachments, and every value that is found in a bibliography file restores as its item.
  lemma {:induction false} ImportWithItemsIsAcceptedIff(x: Import, a: Archive)
    requires LawfulCodec(x.c) && PrintsUuids(x.c.env) && ItemsStored(x.c.env, x.c.csl, x.items)
    requires HasParts(a) && Contents(x.c.env, a) == Some(x.s) && Collisionless(x.c.env, x.s, x.files)
    requires ImportOf(x.c, ExportOf(x.c, x.s, x.items).manifest, x.files, x.c.env.packageVersion, x.importedAt).Ok?
    ensures var r :=
              ImportOf(x.c, ExportOf(x.c, x.s, x.items).manifest, x.files, x.c.env.packageVersion, x.importedAt).value;
            ValidateWith(x.c.env, x.c.csl, r).Some?
            <==> && (forall n | n in LiveNotes(x.s) && !IsUnedited(x.files, n) :: EditFits(x, n))
                 && ItemsRestore(x)
  {
    StoredIsExportable(x.c.env, x.c.csl, x.items);
    ContentsAreReadable(x.c.env, a);
    ReadableIsExportable(x.c.env, x.s);
    ImportIsAcceptedIff(x, a);
    ImportedRows(x.c, x.s, x.items, x.files, x.c.env.packageVersion, x.importedAt);
    RebuiltWithItemsIff(x);
  }

  // So documents of an accepted archive that nobody edited come back accepted, items included.
  lemma {:induction false} UneditedWithItemsIsAccepted(c: Codec, a: Archive, items: seq<BibliographyItem>,
                                                       importedAt: I64)
    requires LawfulCodec(c) && PrintsUuids(c.env) && ItemsStored(c.env, c.csl, items)
    requires HasParts(a) && Contents(c.env, a).Some?
    requires FitsMemory(Contents(c.env, a).value) && DirectoriesDiffer(Owners(Contents(c.env, a).value, items))
    ensures var e := ExportOf(c, Contents(c.env, a).value, items);
            var r := ImportOf(c, e.manifest, Collected(e.files), c.env.packageVersion, importedAt);
            r.Ok? && ValidateWith(c.env, c.csl, r.value).Some?
  {
    var s := Contents(c.env, a).value;
    var x := Import(c, s, items, Collected(ExportOf(c, s, items).files), importedAt);
    StoredIsExportable(c.env, c.csl, items);
    ContentsAreReadable(c.env, a);
    ReadableIsExportable(c.env, s);
    UneditedImports(c, s, items, c.env.packageVersion, importedAt);
    UneditedIsCollisionless(c, s, items);
    forall item | item in items
      ensures ItemRestores(x, item)
    {
      UneditedItem(c, s, items, item);
      assert ItemStored(c.env, c.csl, item);
    }
    ImportWithItemsIsAcceptedIff(x, a);
  }
}
