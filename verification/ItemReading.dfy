// Exactly which bibliography items of an archive are read, as what, and which of them are accepted
// (crates/marginalis-archive/src/archive.rs, crates/marginalis-domain/src/model/bibliography.rs).
module ItemReading {
  import opened Options
  import opened Domain
  import opened JsonValues
  import opened Archives
  import opened ArchiveContents
  import opened Principals
  import opened ArchiveReading
  import opened Bibliographies
  import opened DocumentImports
  import opened ArchiveItems
  import opened RecordReading
  import opened ArchiveAcceptance

  // An object whose field "id" is this string.
  predicate HasId(value: Json, id: string) {
    && value.Obj?
    && exists i | 0 <= i < |value.fields| ::
         && value.fields[i] == Field("id", Str(id))
         && forall j | 0 <= j < i :: value.fields[j].name != "id"
  }

  lemma {:induction false} FirstField(fields: seq<Field>, name: string, v: Json)
    ensures OwnField(fields, name) == Some(v)
            <==> exists i | 0 <= i < |fields| ::
                   fields[i] == Field(name, v) && forall j | 0 <= j < i :: fields[j].name != name
  {
    if fields != [] {
      var rest := fields[1..];
      FirstField(rest, name, v);
      if fields[0].name == name {
        assert fields[0] == Field(name, fields[0].value);
      } else {
        forall i | 0 <= i < |rest| && rest[i] == Field(name, v) && forall j | 0 <= j < i :: rest[j].name != name
          ensures fields[i + 1] == Field(name, v) && forall j | 0 <= j < i + 1 :: fields[j].name != name
        {
          assert forall j | 0 < j < i + 1 :: fields[j] == rest[j - 1];
        }
        forall i | 0 <= i < |fields| && fields[i] == Field(name, v) && forall j | 0 <= j < i :: fields[j].name != name
          ensures i > 0 && rest[i - 1] == Field(name, v) && forall j | 0 <= j < i - 1 :: rest[j].name != name
        {
          assert forall j | 0 <= j < i - 1 :: rest[j] == fields[j + 1];
        }
      }
    }
  }

  lemma {:induction false} IdIs(value: Json, id: string)
    ensures IdOfValue(value) == Some(id) <==> HasId(value, id)
  {
    if value.Obj? {
      FirstField(value.fields, "id", Str(id));
    }
  }

  // The value, printed and parsed again, is a valid one with the citation key as its ID, and is what is kept.
  predicate ItemReadsAs(env: Environment, csl: Csl, principals: seq<Principal>, item: ArchiveItem,
                        b: BibliographyItem) {
    && env.parseId(item.itemId) == Some(b.itemId)
    && NamesPrincipal(env, principals, item.owner, b.owner)
    && b.citationKey == item.citationKey
    && b.createdAt == item.createdAt && b.updatedAt == item.updatedAt && item.createdAt <= item.updatedAt
    && b.revision == item.revision
    && var value := csl.parse(csl.textOf(item.csl));
       && value.Some? && csl.validItem(value.value) && HasId(value.value, item.citationKey)
       && b.cslJson == csl.textOf(value.value)
  }

  lemma {:induction false} ItemReads(env: Environment, csl: Csl, principals: seq<Principal>, item: ArchiveItem,
                                     b: BibliographyItem)
    requires Declared(principals)
    ensures ReadItem(env, csl, principals, item) == Some(b) <==> ItemReadsAs(env, csl, principals, item, b)
  {
    RefOfIs(env, principals, item.owner, b.owner);
    var value := csl.parse(csl.textOf(item.csl));
    if value.Some? {
      IdIs(value.value, item.citationKey);
    }
  }

  predicate ItemsReadAs(env: Environment, csl: Csl, principals: seq<Principal>, s: seq<ArchiveItem>,
                        t: seq<BibliographyItem>) {
    |t| == |s| && forall i | 0 <= i < |t| :: ItemReadsAs(env, csl, principals, s[i], t[i])
  }

  lemma {:induction false} ItemsAreRead(env: Environment, csl: Csl, principals: seq<Principal>, s: seq<ArchiveItem>,
                                        t: seq<BibliographyItem>)
    requires Declared(principals)
    ensures Traverse(ItemReader(env, csl, principals), s) == Some(t) <==> ItemsReadAs(env, csl, principals, s, t)
  {
    TraverseReads(ItemReader(env, csl, principals), s, t);
    if |s| == |t| {
      forall i | 0 <= i < |s|
        ensures ItemReader(env, csl, principals)(s[i]) == Some(t[i])
                <==> ItemReadsAs(env, csl, principals, s[i], t[i])
      {
        ItemReads(env, csl, principals, s[i], t[i]);
      }
    }
  }

  // No two items share an ID, and no two of one owner a citation key.
  predicate RepeatNothing(items: seq<BibliographyItem>) {
    && (forall i, j | 0 <= i < |items| && 0 <= j < |items| && items[i].itemId == items[j].itemId :: i == j)
    && forall i, j | 0 <= i < |items| && 0 <= j < |items| && items[i].owner.id == items[j].owner.id
                     && items[i].citationKey == items[j].citationKey :: i == j
  }

  ghost predicate HasGoodItems(env: Environment, csl: Csl, principals: seq<Principal>, s: seq<ArchiveItem>) {
    exists items :: ItemsReadAs(env, csl, principals, s, items) && RepeatNothing(items)
  }

  lemma {:induction false} RepeatNothingIff(items: seq<BibliographyItem>)
    ensures ItemsOk(items) <==> RepeatNothing(items)
  {
  }

  lemma {:induction false} ItemsReadIff(env: Environment, csl: Csl, principals: seq<Principal>, s: seq<ArchiveItem>)
    requires Declared(principals)
    ensures ItemsRead(env, csl, principals, s) <==> HasGoodItems(env, csl, principals, s)
  {
    var read := Traverse(ItemReader(env, csl, principals), s);
    if read.Some? {
      ItemsAreRead(env, csl, principals, s, read.value);
      RepeatNothingIff(read.value);
    }
    forall items | ItemsReadAs(env, csl, principals, s, items)
      ensures read == Some(items)
    {
      ItemsAreRead(env, csl, principals, s, items);
    }
  }

  lemma {:induction false} TableOfAccepted(env: Environment, a: Archive)
    requires Validate(env, a).Some?
    ensures HasParts(a) && ReadParts(env, a).Some? && Declared(ReadParts(env, a).value.principals)
    ensures ReadParts(env, a).value.principals == DeclaredPrincipals(env, a.principals.value).value
  {
    ContentsIffPartsOk(env, a);
    ReadPartsResolve(env, a);
  }

  // An archive is accepted with its items exactly when it is accepted without them, every item reads under the
  // principals of the table, and they repeat nothing.
  lemma {:induction false} AcceptedWithItemsIff(env: Environment, csl: Csl, r: Rebuilding)
    ensures ValidateWith(env, csl, r).Some?
            <==> && Validate(env, r.archive).Some?
                 && HasGoodItems(env, csl, DeclaredPrincipals(env, r.archive.principals.value).value, r.items)
  {
    ValidateWithIff(env, csl, r);
    if Validate(env, r.archive).Some? {
      TableOfAccepted(env, r.archive);
      ItemsReadIff(env, csl, ReadParts(env, r.archive).value.principals, r.items);
    }
  }
}
