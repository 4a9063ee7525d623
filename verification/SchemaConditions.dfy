// Why the soundness of the generated types needs conditions on the schemas: for each condition a family of
// schemas that are sound exactly when they meet it (crates/marginalis-contract/src/typescript.rs).
module SchemaConditions {
  import opened JsonValues
  import opened Options
  import opened SchemaValidator
  import opened TypeText
  import opened SchemaSoundness

  lemma {:induction false} TwoAtoms(a: TypeAtom, b: TypeAtom)
    ensures Segments([Atom(a), And, Atom(b)]) == [[a, b]]
  {
    var text: seq<Token> := [Atom(a), And, Atom(b)];
    assert text[1..] == [And, Atom(b)] && text[1..][1..] == [Atom(b)] && text[1..][1..][1..] == [];
    assert Segments([]) == [[]];
    assert Segments([Atom(b)]) == [[b] + []] + [];
    assert [b] + [] == [b];
    assert Segments(text[1..]) == [[b]];
    assert [a] + [b] == [a, b];
  }

  // ---------------------------------------------------------------- soundness of one schema

  ghost predicate Sound(defs: Definitions, s: Schema) {
    forall depth: nat, v :: Accepts(defs, depth, v, s) ==> InhabitsText(defs, depth, v, TypeExpression(s))
  }

  lemma {:induction false} PrintableIsSound(defs: Definitions, s: Schema)
    requires GoodDefinitions(defs) && Printable(s)
    ensures Sound(defs, s)
  {
    forall depth: nat, v | Accepts(defs, depth, v, s)
      ensures InhabitsText(defs, depth, v, TypeExpression(s))
    {
      TypeSound(defs, depth, v, s);
    }
  }

  lemma {:induction false} CounterexampleTo(defs: Definitions, s: Schema, depth: nat, v: Json)
    requires Accepts(defs, depth, v, s) && !InhabitsText(defs, depth, v, TypeExpression(s))
    ensures !Sound(defs, s)
  {
  }

  // ---------------------------------------------------------------- references beside members

  // An object schema with one required member, and possibly a reference beside it.
  function Named(ref: Option<string>): Schema {
    BLANK.(ref := ref, kind := One("object"), properties := Table([Property("a", Always)]), required := ["a"])
  }

  function Two(ref: Option<string>): Definitions {
    map["A" := Named(ref), "B" := Always]
  }

  ghost predicate DeclarationIsSound(defs: Definitions, name: string)
    requires name in defs
  {
    forall depth: nat, v | Accepts(defs, depth, v, defs[name]) ::
      InhabitsDeclaration(defs, depth, v, DeclarationOf(defs, name))
  }

  // The validator follows the reference and skips the members, the generated interface has them. That does
  // no harm only when nothing can be accepted, because the reference names no schema or the schema itself.
  lemma {:induction false} ReferenceBesideMembersIsSoundIff(ref: Option<string>)
    ensures DeclarationIsSound(Two(ref), "A") <==> ref.None? || LastSegment(ref.value) != "B"
  {
    var defs := Two(ref);
    if ref.None? {
      assert PropertiesPrintable([]);
      forall depth: nat, v | Accepts(defs, depth, v, defs["A"])
        ensures InhabitsDeclaration(defs, depth, v, DeclarationOf(defs, "A"))
      {
        DeclarationSound(defs, depth, v, "A");
      }
    } else if LastSegment(ref.value) == "B" {
      assert Accepts(defs, 1, Obj([]), defs["B"]);
      assert Accepts(defs, 2, Obj([]), defs["A"]);
      InterfaceDemandsMembers(defs, 2, defs["A"], "A", Property("a", Always));
    } else {
      forall depth: nat, v
        ensures !Accepts(defs, depth, v, defs["A"])
      {
        AcceptsNothing(ref, depth, v);
      }
    }
  }

  lemma {:induction false} AcceptsNothing(ref: Option<string>, depth: nat, v: Json)
    requires ref.Some? && LastSegment(ref.value) != "B"
    ensures !Accepts(Two(ref), depth, v, Named(ref))
  {
    if depth > 0 && LastSegment(ref.value) == "A" {
      AcceptsNothing(ref, depth - 1, v);
    }
  }

  lemma {:induction false} InterfaceDemandsMembers(defs: Definitions, depth: nat, s: Schema, name: string, p: Property)
    requires name in defs && defs[name] == s && IsPlainObject(s) && name != "Problem"
    requires s.properties.entries == [p] && s.required == [p.name] && p.name == "a"
    ensures !InhabitsDeclaration(defs, depth, Obj([]), DeclarationOf(defs, name))
  {
    ObjectMembersAt([p], s.required, 0);
    var declaration := DeclarationOf(defs, name);
    assert !InhabitsMember(defs, depth, Obj([]), declaration.members[0]);
  }

  // ---------------------------------------------------------------- members of a schema

  // A string constant is printed between quotes as it is.
  lemma {:induction false} StringConstantIsSoundIff(text: string)
    ensures Sound(map[], BLANK.(constant := Some(Str(text)))) <==> IsPlainText(text)
  {
    var s := BLANK.(constant := Some(Str(text)));
    if IsPlainText(text) {
      PrintableIsSound(map[], s);
    } else {
      assert TypeExpression(s) == [Atom(Quoted(text))];
      SingleAtom(map[], 1, Str(text), Quoted(text));
      QuotedTextMeansItself(text);
      CounterexampleTo(map[], s, 1, Str(text));
    }
  }

  // Without members, an allOf prints nothing when it is empty.
  lemma {:induction false} AllOfIsSoundIff(members: seq<Schema>)
    requires AllPrintable(members)
    ensures Sound(map[], BLANK.(allOf := List(members))) <==> members != []
  {
    var s := BLANK.(allOf := List(members));
    if members != [] {
      PrintableIsSound(map[], s);
    } else {
      assert TypeExpression(s) == [];
      assert forall i | 0 <= i < |Segments([])| :: Segments([])[i] == [];
      CounterexampleTo(map[], s, 1, Null);
    }
  }

  // With members, the validator looks at them only of objects, the generated type demands them.
  lemma {:induction false} MembersBesideAllOfAreSoundIff(kind: string)
    ensures Sound(map[],
                  BLANK.(kind := One(kind), allOf := List([Always]), properties := Table([Property("a", Always)])))
       <==> kind == "object"
  {
    var s := BLANK.(kind := One(kind), allOf := List([Always]), properties := Table([Property("a", Always)]));
    if kind == "object" {
      assert PropertiesPrintable([]);
      PrintableIsSound(map[], s);
    } else {
      var v := NoRecord(kind);
      var record := Members(ObjectMembers([Property("a", Always)], []));
      assert Joined([Always], And) == [Atom(UnknownType)];
      assert TypeExpression(s) == [Atom(UnknownType), And, Atom(record)];
      NoRecordIsOutside(v, record);
      assert MatchesType(v, TypeNames(s.kind)[0]);
      assert Accepts(map[], 1, v, Always);
      CounterexampleTo(map[], s, 2, v);
    }
  }

  lemma {:induction false} NoRecordIsOutside(v: Json, record: TypeAtom)
    requires record.Members? && !IsRecord(v)
    ensures !InhabitsText(map[], 2, v, [Atom(UnknownType), And, Atom(record)])
  {
    TwoAtoms(UnknownType, record);
    assert !InhabitsSegment(map[], 2, v, [UnknownType, record]) by {
      assert [UnknownType, record][1] == record;
    }
  }

  // A value of this type that is no record, unless the type is that of records.
  function NoRecord(kind: string): (v: Json)
    ensures kind != "object" ==> MatchesType(v, kind) && !IsRecord(v)
  {
    if kind == "array" then Arr([])
    else if kind == "string" then Str("")
    else if kind == "integer" || kind == "number" then Number(0.0)
    else if kind == "boolean" then Bool(true)
    else Null
  }

  // ---------------------------------------------------------------- names of properties

  lemma {:induction false} FirstMembersArePlain()
    ensures IsPlainText("constructor") && IsPlainText("__defineGetter__") && IsPlainText("__defineSetter__")
    ensures IsPlainText("hasOwnProperty")
  {
  }

  lemma {:induction false} MiddleMembersArePlain()
    ensures IsPlainText("__lookupGetter__") && IsPlainText("__lookupSetter__") && IsPlainText("isPrototypeOf")
    ensures IsPlainText("propertyIsEnumerable")
  {
  }

  lemma {:induction false} LastMembersArePlain()
    ensures IsPlainText("toString") && IsPlainText("valueOf") && IsPlainText("__proto__")
            && IsPlainText("toLocaleString")
  {
  }

  lemma {:induction false} PrototypeMembersArePlain()
    ensures forall name | name in PROTOTYPE_MEMBERS :: IsPlainText(name)
  {
    FirstMembersArePlain();
    MiddleMembersArePlain();
    LastMembersArePlain();
  }

  lemma {:induction false} IdentifierIsPlain(name: string)
    requires IsIdentifier(name)
    ensures IsPlainText(name)
  {
  }

  lemma {:induction false} LookupAlone(name: string, other: string)
    requires other !in PROTOTYPE_MEMBERS && other != name
    ensures Lookup(Obj([Field(name, Null)]), name).Some? && Lookup(Obj([Field(name, Null)]), other).None?
  {
    var fields := [Field(name, Null)];
    assert fields[1..] == [] && OwnField([], other).None?;
  }

  // A record without the property, but with the one that the generated member reads instead.
  function Misleading(name: string): Json {
    if ReadMemberName(name).Some? then Obj([Field(ReadMemberName(name).value, Null)]) else Obj([])
  }

  lemma {:induction false} MisleadingMisleads(name: string)
    requires name == "" || !IsPlainText(name)
    ensures IsRecord(Misleading(name)) && Lookup(Misleading(name), name).None?
    ensures ReadMemberName(name).Some? ==> Lookup(Misleading(name), ReadMemberName(name).value).Some?
  {
    PrototypeMembersArePlain();
    if name == "" {
      assert "" !in PROTOTYPE_MEMBERS;
    } else {
      if IsIdentifier(name) {
        IdentifierIsPlain(name);
      }
      QuotedTextMeansItself(name);
      if ReadMemberName(name).Some? {
        LookupAlone(ReadMemberName(name).value, name);
      }
    }
  }

  // A property that must be absent: the generated type demands that of the name that it reads.
  lemma {:induction false} PropertyNameIsSoundIff(name: string)
    ensures Sound(map[], BLANK.(kind := One("object"), properties := Table([Property(name, Never)])))
       <==> name != "" && IsPlainText(name)
  {
    var s := BLANK.(kind := One("object"), properties := Table([Property(name, Never)]));
    if name != "" && IsPlainText(name) {
      assert PropertiesPrintable([]);
      PrintableIsSound(map[], s);
    } else {
      MisleadingMisleads(name);
      MisreadMember(s, name, Misleading(name));
    }
  }

  lemma {:induction false} MisreadMember(s: Schema, name: string, v: Json)
    requires s == BLANK.(kind := One("object"), properties := Table([Property(name, Never)]))
    requires IsRecord(v) && Lookup(v, name).None?
    requires ReadMemberName(name).Some? ==> Lookup(v, ReadMemberName(name).value).Some?
    ensures !Sound(map[], s)
  {
    var members := ObjectMembers([Property(name, Never)], []);
    NeverMember(name, v);
    assert TypeNames(s.kind) == ["object"];
    assert TypeExpression(s) == [Atom(Members(members))];
    SingleAtom(map[], 1, v, Members(members));
    assert MatchesType(v, TypeNames(s.kind)[0]);
    CounterexampleTo(map[], s, 1, v);
  }

  lemma {:induction false} NeverMember(name: string, v: Json)
    requires IsRecord(v) && (ReadMemberName(name).Some? ==> Lookup(v, ReadMemberName(name).value).Some?)
    ensures |ObjectMembers([Property(name, Never)], [])| == 1
    ensures !InhabitsMember(map[], 0, v, ObjectMembers([Property(name, Never)], [])[0])
  {
    ObjectMembersAt([Property(name, Never)], [], 0);
    assert TypeExpression(Never) == [Atom(NeverType)];
    if ReadMemberName(name).Some? {
      SingleAtom(map[], 0, Lookup(v, ReadMemberName(name).value).value, NeverType);
    }
  }

  // ---------------------------------------------------------------- the hand-written declaration

  function ProblemProperties(): seq<Property> {
    [Property("code", BLANK.(ref := Some("ProblemCode"))),
     Property("message", BLANK.(kind := One("string"))),
     Property("diagnostics", BLANK.(kind := One("array"), items := Some(BLANK.(ref := Some("NoteDiagnostic")))))]
  }

  // The schema of Problem with these required members.
  function ProblemSchema(required: seq<string>): Schema {
    BLANK.(kind := One("object"), properties := Table(ProblemProperties()), required := required)
  }

  function ProblemDefinitions(required: seq<string>): Definitions {
    map["Problem" := ProblemSchema(required), "ProblemCode" := Always, "NoteDiagnostic" := Always]
  }

  ghost predicate SupplementIsSound(required: seq<string>) {
    forall depth: nat, v | Accepts(ProblemDefinitions(required), depth, v, ProblemSchema(required)) ::
      InhabitsDeclaration(ProblemDefinitions(required), depth, v, PROBLEM_SUPPLEMENT)
  }

  // The hand-written declaration demands both members, whether the schema requires them or not.
  lemma {:induction false} SupplementIsSoundIff(required: seq<string>)
    requires forall name | name in required :: name == "code" || name == "message"
    ensures SupplementIsSound(required) <==> "code" in required && "message" in required
  {
    if "code" in required && "message" in required {
      ProblemFits(required);
      forall depth: nat, v | Accepts(ProblemDefinitions(required), depth, v, ProblemSchema(required))
        ensures InhabitsDeclaration(ProblemDefinitions(required), depth, v, PROBLEM_SUPPLEMENT)
      {
        SupplementSound(ProblemDefinitions(required), depth, v, ProblemSchema(required));
      }
    } else if "code" in required {
      PartialProblem(required, Field("code", Null), 1);
    } else {
      PartialProblem(required, Field("message", Str("")), 0);
    }
  }

  lemma {:induction false} ProblemFits(required: seq<string>)
    requires "code" in required && "message" in required
    ensures FitsSupplement(ProblemSchema(required)) && GoodDefinitions(ProblemDefinitions(required))
  {
    PropertiesFit();
    GoodWhenProblemFits(ProblemDefinitions(required));
  }

  lemma {:induction false} PropertiesFit()
    ensures IsCode(ProblemProperties()[0]) && IsMessage(ProblemProperties()[1]) && IsDiagnostics(ProblemProperties()[2])
  {
    ReferenceNames("ProblemCode");
    ReferenceNames("NoteDiagnostic");
  }

  lemma {:induction false} ReferenceNames(name: string)
    requires '/' !in name
    ensures RefersTo(BLANK.(ref := Some(name)), name)
  {
    assert name != "" ==> '/' !in name[1..] && name[0] in name;
  }

  lemma {:induction false} GoodWhenProblemFits(defs: Definitions)
    requires forall name | name in defs && name != "Problem" :: defs[name] == Always
    requires "Problem" in defs ==> FitsSupplement(defs["Problem"])
    ensures GoodDefinitions(defs)
  {
    assert Printable(Always);
  }

  // A problem with one member only.
  lemma {:induction false} PartialProblem(required: seq<string>, field: Field, missing: nat)
    requires missing < 2 && field == (if missing == 1 then Field("code", Null) else Field("message", Str("")))
    requires forall name | name in required :: name == field.name
    ensures !SupplementIsSound(required)
  {
    PartialProblemAccepted(required, field);
    OnlyField(field, if missing == 0 then "code" else "message");
    MissingMember(ProblemDefinitions(required), Obj([field]), missing);
    assert !InhabitsDeclaration(ProblemDefinitions(required), 3, Obj([field]), PROBLEM_SUPPLEMENT);
  }

  lemma {:induction false} MissingMember(defs: Definitions, v: Json, missing: nat)
    requires missing < 2 && IsRecord(v) && Lookup(v, if missing == 0 then "code" else "message").None?
    ensures !InhabitsDeclaration(defs, 3, v, PROBLEM_SUPPLEMENT)
  {
    SupplementNames();
    assert !InhabitsMember(defs, 3, v, PROBLEM_SUPPLEMENT.members[missing]);
  }

  lemma {:induction false} OnlyField(field: Field, name: string)
    ensures Lookup(Obj([field]), field.name) == Some(field.value)
    ensures name != field.name && name !in PROTOTYPE_MEMBERS ==> Lookup(Obj([field]), name).None?
  {
    assert [field][1..] == [] && OwnField([], name).None?;
  }

  lemma {:induction false} PartialProblemAccepted(required: seq<string>, field: Field)
    requires field == Field("code", Null) || field == Field("message", Str(""))
    requires forall name | name in required :: name == field.name
    ensures Accepts(ProblemDefinitions(required), 3, Obj([field]), ProblemSchema(required))
  {
    var defs, s, v := ProblemDefinitions(required), ProblemSchema(required), Obj([field]);
    forall i | 0 <= i < 3 && Lookup(v, Properties(s)[i].name).Some?
      ensures Accepts(defs, 2, Lookup(v, Properties(s)[i].name).value, Properties(s)[i].schema)
    {
      OnlyField(field, Properties(s)[i].name);
      PartialFieldAccepted(defs, field, i);
    }
    OnlyField(field, field.name);
    assert MatchesType(v, TypeNames(s.kind)[0]);
  }

  lemma {:induction false} PartialFieldAccepted(defs: Definitions, field: Field, i: nat)
    requires field == Field("code", Null) || field == Field("message", Str(""))
    requires i < 3 && ProblemProperties()[i].name == field.name
    requires "ProblemCode" in defs && defs["ProblemCode"] == Always
    ensures Accepts(defs, 2, field.value, ProblemProperties()[i].schema)
  {
    var s := ProblemProperties()[i].schema;
    ReferenceNames("ProblemCode");
    if i == 1 {
      assert MatchesType(field.value, TypeNames(s.kind)[0]);
    } else {
      assert Accepts(defs, 1, field.value, Always);
    }
  }
}
