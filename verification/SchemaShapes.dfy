// What the generated types say: a value inhabits the type of a schema exactly when it has the shape that the schema
// describes, limits aside (crates/marginalis-contract/src/typescript.rs).
module SchemaShapes {
  import opened JsonValues
  import opened TypeText
  import opened SchemaSoundness

  // ---------------------------------------------------------------- shapes

  // The shape that a schema describes, following at most `depth` references, items and properties. Types make no
  // difference between integers and other numbers, and do not know limits.
  predicate HasShape(defs: Definitions, depth: nat, v: Json, s: Schema)
    decreases depth, 1, s, 1
  {
    match s
    case Always => true
    case Never => false
    case Other => true
    case Keywords(_, _, _, _, _, _, _, _, _, _, _, _) =>
      if s.ref.Some? then IsNamed(defs, depth, v, LastSegment(s.ref.value))
      else if s.constant.Some? then SameText(v, s.constant.value)
      else if s.enumeration.Some? then exists i | 0 <= i < |s.enumeration.value| :: SameText(v, s.enumeration.value[i])
      else if s.allOf.List? then
        && (forall i | 0 <= i < |s.allOf.members| :: HasShape(defs, depth, v, s.allOf.members[i]))
        && (s.properties.Table? ==>
              depth > 0 && IsRecord(v) && HasProperties(defs, depth - 1, v, s.properties.entries, s.required))
      else if s.oneOf.List? then exists i | 0 <= i < |s.oneOf.members| :: HasShape(defs, depth, v, s.oneOf.members[i])
      else if s.anyOf.List? then exists i | 0 <= i < |s.anyOf.members| :: HasShape(defs, depth, v, s.anyOf.members[i])
      else if TypeNames(s.kind) == [] then true
      else exists i | 0 <= i < |TypeNames(s.kind)| :: HasKind(defs, depth, v, s, TypeNames(s.kind)[i])
  }

  predicate HasKind(defs: Definitions, depth: nat, v: Json, s: Schema, name: string)
    requires s.Keywords?
    decreases depth, 1, s, 0
  {
    if name == "string" then v.Str?
    else if name == "number" || name == "integer" then v.Number?
    else if name == "boolean" then v.Bool?
    else if name == "null" then v.Null?
    else if name == "array" then
      && depth > 0 && v.Arr?
      && (s.items.Some? ==> forall i | 0 <= i < |v.items| :: HasShape(defs, depth - 1, v.items[i], s.items.value))
    else if name == "object" then
      && IsRecord(v)
      && (s.properties.Table? ==>
            depth > 0 && HasProperties(defs, depth - 1, v, s.properties.entries, s.required))
    else true
  }

  // Properties that are there have their shape; only those that are not required may be missing.
  predicate HasProperties(defs: Definitions, depth: nat, v: Json, properties: seq<Property>, required: seq<string>)
    requires IsRecord(v)
    decreases depth, 1, properties, 0
  {
    forall i | 0 <= i < |properties| ::
      match Lookup(v, properties[i].name)
      case None => properties[i].name !in required
      case Some(field) => HasShape(defs, depth, field, properties[i].schema)
  }

  // The shape of the schema with this name; problems have a shape of their own.
  predicate IsNamed(defs: Definitions, depth: nat, v: Json, name: string)
    decreases depth, 0
  {
    && depth > 0 && name in defs
    && if name == "Problem" then IsProblem(defs, depth - 1, v)
       else if IsPlainObject(defs[name]) then
         IsRecord(v) && HasProperties(defs, depth - 1, v, defs[name].properties.entries, defs[name].required)
       else HasShape(defs, depth - 1, v, defs[name])
  }

  // A code of the contract or one of two that the client makes up, a message, and possibly diagnostics.
  predicate IsProblem(defs: Definitions, depth: nat, v: Json)
    decreases depth, 2
  {
    && IsRecord(v)
    && (match Lookup(v, "code")
        case None => false
        case Some(code) =>
          code == Str("invalid_response") || code == Str("network_error") || IsNamed(defs, depth, code, "ProblemCode"))
    && (match Lookup(v, "message")
        case None => false
        case Some(message) => message.Str?)
    && (match Lookup(v, "diagnostics")
        case None => true
        case Some(list) =>
          depth > 0 && list.Arr?
          && forall i | 0 <= i < |list.items| :: IsNamed(defs, depth - 1, list.items[i], "NoteDiagnostic"))
  }

  // ---------------------------------------------------------------- schemas that types can express

  // String constants and property names print as themselves, and an allOf is not empty and has no alternatives,
  // which would be grouped wrongly without parentheses.
  predicate Expressible(s: Schema)
    decreases s, 1
  {
    s.Keywords? && s.ref.None? ==>
      if s.constant.Some? then PlainConstant(s.constant.value)
      else if s.enumeration.Some? then
        forall i | 0 <= i < |s.enumeration.value| :: PlainConstant(s.enumeration.value[i])
      else if s.allOf.List? then
        && (s.allOf.members != [] || s.properties.Table?)
        && AllExpressible(s.allOf.members) && NoAlternatives(s.allOf.members)
        && (s.properties.Table? ==> PropertiesExpressible(s.properties.entries))
      else if s.oneOf.List? then AllExpressible(s.oneOf.members)
      else if s.anyOf.List? then AllExpressible(s.anyOf.members)
      else
        && (s.items.Some? ==> Expressible(s.items.value))
        && (s.properties.Table? ==> PropertiesExpressible(s.properties.entries))
  }

  predicate AllExpressible(members: seq<Schema>)
    decreases members, 0
  {
    members == [] || (Expressible(members[0]) && AllExpressible(members[1..]))
  }

  predicate PropertiesExpressible(properties: seq<Property>)
    decreases properties, 0
  {
    properties == []
    || (properties[0].name != "" && IsPlainText(properties[0].name) && Expressible(properties[0].schema)
        && PropertiesExpressible(properties[1..]))
  }

  // The schema prints no union.
  predicate HasOneAlternative(s: Schema)
    decreases s, 1
  {
    s.Keywords? && s.ref.None? && s.constant.None? ==>
      if s.enumeration.Some? then |s.enumeration.value| == 1
      else if s.allOf.List? then NoAlternatives(s.allOf.members)
      else if s.oneOf.List? then |s.oneOf.members| == 1 && NoAlternatives(s.oneOf.members)
      else if s.anyOf.List? then |s.anyOf.members| == 1 && NoAlternatives(s.anyOf.members)
      else |TypeNames(s.kind)| <= 1
  }

  predicate NoAlternatives(members: seq<Schema>)
    decreases members, 0
  {
    members == [] || (HasOneAlternative(members[0]) && NoAlternatives(members[1..]))
  }

  // All definitions can be expressed.
  ghost predicate ExpressibleDefinitions(defs: Definitions) {
    forall name | name in defs && name != "Problem" ::
      if IsPlainObject(defs[name]) then PropertiesExpressible(defs[name].properties.entries)
      else Expressible(defs[name])
  }

  // ---------------------------------------------------------------- unions

  lemma {:induction false} NoText(defs: Definitions, depth: nat, v: Json)
    ensures !InhabitsText(defs, depth, v, [])
  {
    assert Segments([]) == [[]];
  }

  lemma {:induction false} AlternativesMean(defs: Definitions, depth: nat, v: Json, members: seq<Schema>)
    ensures InhabitsText(defs, depth, v, Joined(members, Or))
            <==> exists i | 0 <= i < |members| :: InhabitsText(defs, depth, v, TypeExpression(members[i]))
  {
    if members == [] {
      NoText(defs, depth, v);
    } else if |members| == 1 {
      assert Joined(members, Or) == TypeExpression(members[0]);
    } else {
      AlternativesMean(defs, depth, v, members[1..]);
      UnionHolds(defs, depth, v, TypeExpression(members[0]), Joined(members[1..], Or));
      assert forall i | 0 < i < |members| :: members[i] == members[1..][i - 1];
    }
  }

  lemma {:induction false} LiteralMeans(defs: Definitions, depth: nat, v: Json, constant: Json)
    requires PlainConstant(constant)
    ensures InhabitsText(defs, depth, v, LiteralText(constant)) <==> SameText(v, constant)
  {
    if constant.Str? {
      QuotedTextMeansItself(constant.s);
      SingleAtom(defs, depth, v, Quoted(constant.s));
    } else {
      SingleAtom(defs, depth, v, Constant(constant));
    }
  }

  lemma {:induction false} LiteralsMean(defs: Definitions, depth: nat, v: Json, values: seq<Json>)
    requires forall i | 0 <= i < |values| :: PlainConstant(values[i])
    ensures InhabitsText(defs, depth, v, LiteralUnion(values))
            <==> exists i | 0 <= i < |values| :: SameText(v, values[i])
  {
    if values == [] {
      NoText(defs, depth, v);
    } else {
      LiteralMeans(defs, depth, v, values[0]);
      if |values| == 1 {
        assert LiteralUnion(values) == LiteralText(values[0]);
      } else {
        LiteralsMean(defs, depth, v, values[1..]);
        UnionHolds(defs, depth, v, LiteralText(values[0]), LiteralUnion(values[1..]));
        assert forall i | 0 < i < |values| :: values[i] == values[1..][i - 1];
      }
    }
  }

  lemma {:induction false} KindsMean(defs: Definitions, depth: nat, v: Json, names: seq<string>, arrayText: seq<Token>,
                                     objectAtom: TypeAtom)
    ensures InhabitsText(defs, depth, v, KindUnion(names, arrayText, objectAtom))
            <==> exists i | 0 <= i < |names| ::
                   InhabitsText(defs, depth, v, SingleType(names[i], arrayText, objectAtom))
  {
    if names == [] {
      NoText(defs, depth, v);
    } else if |names| == 1 {
      assert KindUnion(names, arrayText, objectAtom) == SingleType(names[0], arrayText, objectAtom);
    } else {
      KindsMean(defs, depth, v, names[1..], arrayText, objectAtom);
      UnionHolds(defs, depth, v, SingleType(names[0], arrayText, objectAtom),
                 KindUnion(names[1..], arrayText, objectAtom));
      assert forall i | 0 < i < |names| :: names[i] == names[1..][i - 1];
    }
  }

  // ---------------------------------------------------------------- intersections

  // The text is one part, without unions.
  predicate IsOnePart(text: seq<Token>) {
    |Segments(text)| == 1 && Segments(text)[0] != []
  }

  lemma {:induction false} OnePartHolds(defs: Definitions, depth: nat, v: Json, text: seq<Token>)
    requires IsOnePart(text)
    ensures InhabitsText(defs, depth, v, text) <==> InhabitsSegment(defs, depth, v, Segments(text)[0])
  {
  }

  lemma {:induction false} PartsMeet(defs: Definitions, depth: nat, v: Json, x: seq<Token>, y: seq<Token>)
    requires IsOnePart(x) && IsOnePart(y)
    ensures IsOnePart(x + ([And] + y))
    ensures InhabitsText(defs, depth, v, x + ([And] + y))
            <==> InhabitsText(defs, depth, v, x) && InhabitsText(defs, depth, v, y)
  {
    SegmentsAfterAnd(x, y);
    var a, b := Segments(x)[0], Segments(y)[0];
    assert Segments(x + ([And] + y)) == [a + b];
    OnePartHolds(defs, depth, v, x);
    OnePartHolds(defs, depth, v, y);
    OnePartHolds(defs, depth, v, x + ([And] + y));
    BothSegments(defs, depth, v, a, b);
  }

  lemma {:induction false} BothSegments(defs: Definitions, depth: nat, v: Json, a: seq<TypeAtom>, b: seq<TypeAtom>)
    requires a != [] && b != []
    ensures InhabitsSegment(defs, depth, v, a + b)
            <==> InhabitsSegment(defs, depth, v, a) && InhabitsSegment(defs, depth, v, b)
  {
    assert forall i | 0 <= i < |a| :: (a + b)[i] == a[i];
    assert forall j | 0 <= j < |b| :: (a + b)[|a| + j] == b[j];
  }

  lemma {:induction false} AtomIsOnePart(a: TypeAtom)
    ensures IsOnePart([Atom(a)])
  {
    assert [Atom(a)][1..] == [] && Segments([]) == [[]];
    assert Segments([Atom(a)]) == [[a] + []] + [];
  }

  // A schema without alternatives prints one part.
  lemma {:induction false} PrintsOnePart(s: Schema)
    requires Expressible(s) && HasOneAlternative(s)
    ensures IsOnePart(TypeExpression(s))
    decreases s, 1
  {
    match s
    case Always => AtomIsOnePart(UnknownType);
    case Never => AtomIsOnePart(NeverType);
    case Other => AtomIsOnePart(UnknownType);
    case Keywords(_, _, _, _, _, _, _, _, _, _, _, _) =>
      if s.ref.Some? {
        AtomIsOnePart(Name(LastSegment(s.ref.value)));
      } else if s.constant.Some? {
        LiteralIsOnePart(s.constant.value);
      } else if s.enumeration.Some? {
        LiteralIsOnePart(s.enumeration.value[0]);
        assert LiteralUnion(s.enumeration.value) == LiteralText(s.enumeration.value[0]);
      } else if s.allOf.List? {
        AllOfPrintsOnePart(s);
      } else if s.oneOf.List? {
        PrintsOnePart(s.oneOf.members[0]);
        JoinedAlone(s.oneOf.members, Or);
      } else if s.anyOf.List? {
        PrintsOnePart(s.anyOf.members[0]);
        JoinedAlone(s.anyOf.members, Or);
      } else {
        KindPrintsOnePart(s);
      }
  }

  lemma {:induction false} JoinedAlone(members: seq<Schema>, separator: Token)
    requires |members| == 1
    ensures Joined(members, separator) == TypeExpression(members[0])
  {
    assert TypeExpression(members[0]) + [] == TypeExpression(members[0]);
  }

  lemma {:induction false} LiteralIsOnePart(value: Json)
    ensures IsOnePart(LiteralText(value))
  {
    AtomIsOnePart(if value.Str? then Quoted(value.s) else Constant(value));
  }

  lemma {:induction false} AllOfPrintsOnePart(s: Schema)
    requires Expressible(s) && HasOneAlternative(s) && s.Keywords?
    requires s.ref.None? && s.constant.None? && s.enumeration.None? && s.allOf.List?
    ensures IsOnePart(TypeExpression(s))
    decreases s, 0
  {
    var members := s.allOf.members;
    if members != [] {
      JoinedPrintsOnePart(members);
    }
    if s.properties.Table? {
      var record := Members(ObjectMembers(s.properties.entries, s.required));
      AllOfWithMembers(s, record);
      AtomIsOnePart(record);
      if members != [] {
        PartsMeet(map[], 0, Null, Joined(members, And), [Atom(record)]);
      } else {
        LeadingAnd(record);
      }
    } else {
      assert TypeExpression(s) == Joined(members, And);
    }
  }

  lemma {:induction false} AllOfWithMembers(s: Schema, record: TypeAtom)
    requires s.Keywords? && s.ref.None? && s.constant.None? && s.enumeration.None? && s.allOf.List?
    requires s.properties.Table? && record == Members(ObjectMembers(s.properties.entries, s.required))
    ensures TypeExpression(s) == Joined(s.allOf.members, And) + ([And] + [Atom(record)])
  {
    assert [And, Atom(record)] == [And] + [Atom(record)];
  }

  // What is joined to nothing stands alone.
  lemma {:induction false} LeadingAnd(record: TypeAtom)
    ensures Segments([] + ([And] + [Atom(record)])) == Segments([Atom(record)])
  {
    assert [] + ([And] + [Atom(record)]) == [And] + [Atom(record)];
    assert ([And] + [Atom(record)])[1..] == [Atom(record)];
  }

  lemma {:induction false} JoinedPrintsOnePart(members: seq<Schema>)
    requires members != [] && AllExpressible(members) && NoAlternatives(members)
    ensures IsOnePart(Joined(members, And))
    decreases members, 0
  {
    PrintsOnePart(members[0]);
    if |members| == 1 {
      assert Joined(members, And) == TypeExpression(members[0]);
    } else {
      JoinedPrintsOnePart(members[1..]);
      PartsMeet(map[], 0, Null, TypeExpression(members[0]), Joined(members[1..], And));
    }
  }

  lemma {:induction false} KindPrintsOnePart(s: Schema)
    requires s.Keywords? && s.ref.None? && s.constant.None? && s.enumeration.None?
    requires s.allOf.NoList? && s.oneOf.NoList? && s.anyOf.NoList? && |TypeNames(s.kind)| <= 1
    ensures IsOnePart(TypeExpression(s))
    decreases s, 0
  {
    if TypeNames(s.kind) == [] {
      AtomIsOnePart(UnknownType);
    } else {
      var text := SingleType(TypeNames(s.kind)[0], [Atom(ArrayOf(ElementOf(s)))], ObjectAtomOf(s));
      KindTexts(s);
      KindAlone(TypeNames(s.kind), [Atom(ArrayOf(ElementOf(s)))], ObjectAtomOf(s));
      AtomIsOnePart(text[0].atom);
      assert text == [Atom(text[0].atom)];
    }
  }

  lemma {:induction false} KindAlone(names: seq<string>, arrayText: seq<Token>, objectAtom: TypeAtom)
    requires |names| == 1
    ensures KindUnion(names, arrayText, objectAtom) == SingleType(names[0], arrayText, objectAtom)
  {
    assert SingleType(names[0], arrayText, objectAtom) + [] == SingleType(names[0], arrayText, objectAtom);
  }

  // ---------------------------------------------------------------- arrays and records

  function ElementOf(s: Schema): seq<Token>
    requires s.Keywords?
  {
    if s.items.Some? then TypeExpression(s.items.value) else [Atom(UnknownType)]
  }

  function ObjectAtomOf(s: Schema): TypeAtom
    requires s.Keywords?
  {
    if s.properties.Table? then Members(ObjectMembers(s.properties.entries, s.required)) else AnyRecord
  }

  // With or without parentheses, the brackets bind to the whole element.
  lemma {:induction false} ArrayTextIsAtom(element: seq<Token>)
    ensures ArrayText(element) == [Atom(ArrayOf(element))]
  {
    if !HasSpace(element) && element != [] {
      assert element == [element[0]];
      assert element[..0] + [Atom(ArrayOf([element[0]]))] == [Atom(ArrayOf(element))];
    }
  }

  lemma {:induction false} KindTexts(s: Schema)
    requires s.Keywords? && s.ref.None? && s.constant.None? && s.enumeration.None?
    requires s.allOf.NoList? && s.oneOf.NoList? && s.anyOf.NoList? && TypeNames(s.kind) != []
    ensures TypeExpression(s) == KindUnion(TypeNames(s.kind), [Atom(ArrayOf(ElementOf(s)))], ObjectAtomOf(s))
  {
    ArrayTextIsAtom(ElementOf(s));
  }

  lemma {:induction false} PropertyIsExpressible(properties: seq<Property>, i: nat)
    requires PropertiesExpressible(properties) && i < |properties|
    ensures properties[i].name != "" && IsPlainText(properties[i].name) && Expressible(properties[i].schema)
  {
    if i > 0 {
      PropertyIsExpressible(properties[1..], i - 1);
    }
  }

  lemma {:induction false} MemberIsExpressible(members: seq<Schema>, i: nat)
    requires AllExpressible(members) && i < |members|
    ensures Expressible(members[i])
    ensures NoAlternatives(members) ==> HasOneAlternative(members[i])
  {
    if i > 0 {
      MemberIsExpressible(members[1..], i - 1);
    }
  }

  lemma {:induction false} AllMean(defs: Definitions, depth: nat, v: Json, members: seq<Schema>)
    requires members != [] && AllExpressible(members) && NoAlternatives(members)
    ensures InhabitsText(defs, depth, v, Joined(members, And))
            <==> forall i | 0 <= i < |members| :: InhabitsText(defs, depth, v, TypeExpression(members[i]))
  {
    if |members| == 1 {
      assert Joined(members, And) == TypeExpression(members[0]);
    } else {
      AllMean(defs, depth, v, members[1..]);
      PrintsOnePart(members[0]);
      JoinedPrintsOnePart(members[1..]);
      PartsMeet(defs, depth, v, TypeExpression(members[0]), Joined(members[1..], And));
      assert forall i | 0 < i < |members| :: members[i] == members[1..][i - 1];
    }
  }

  // ---------------------------------------------------------------- the theorem

  // A value inhabits the generated type exactly when it has the shape that the schema describes.
  lemma {:induction false} TypeIsShape(defs: Definitions, depth: nat, v: Json, s: Schema)
    requires ExpressibleDefinitions(defs) && Expressible(s)
    ensures InhabitsText(defs, depth, v, TypeExpression(s)) <==> HasShape(defs, depth, v, s)
    decreases depth, 1, s, 1
  {
    match s
    case Always => SingleAtom(defs, depth, v, UnknownType);
    case Never => SingleAtom(defs, depth, v, NeverType);
    case Other => SingleAtom(defs, depth, v, UnknownType);
    case Keywords(_, _, _, _, _, _, _, _, _, _, _, _) =>
      if s.ref.Some? {
        NameIsShape(defs, depth, v, LastSegment(s.ref.value));
      } else if s.constant.Some? {
        LiteralMeans(defs, depth, v, s.constant.value);
      } else if s.enumeration.Some? {
        LiteralsMean(defs, depth, v, s.enumeration.value);
      } else {
        KeywordsAreShape(defs, depth, v, s);
      }
  }

  lemma {:induction false} KeywordsAreShape(defs: Definitions, depth: nat, v: Json, s: Schema)
    requires ExpressibleDefinitions(defs) && Expressible(s) && s.Keywords?
    requires s.ref.None? && s.constant.None? && s.enumeration.None?
    ensures InhabitsText(defs, depth, v, TypeExpression(s)) <==> HasShape(defs, depth, v, s)
    decreases depth, 1, s, 0, 1
  {
    if s.allOf.List? {
      AllOfIsShape(defs, depth, v, s);
    } else if s.oneOf.List? {
      SomeIsShape(defs, depth, v, s.oneOf.members);
    } else if s.anyOf.List? {
      SomeIsShape(defs, depth, v, s.anyOf.members);
    } else {
      KindsAreShape(defs, depth, v, s);
    }
  }

  lemma {:induction false} SomeIsShape(defs: Definitions, depth: nat, v: Json, members: seq<Schema>)
    requires ExpressibleDefinitions(defs) && AllExpressible(members)
    ensures InhabitsText(defs, depth, v, Joined(members, Or))
            <==> exists i | 0 <= i < |members| :: HasShape(defs, depth, v, members[i])
    decreases depth, 1, members, 0
  {
    AlternativesMean(defs, depth, v, members);
    forall i | 0 <= i < |members|
      ensures InhabitsText(defs, depth, v, TypeExpression(members[i])) <==> HasShape(defs, depth, v, members[i])
    {
      MemberIsExpressible(members, i);
      TypeIsShape(defs, depth, v, members[i]);
    }
  }

  lemma {:induction false} EachIsShape(defs: Definitions, depth: nat, v: Json, members: seq<Schema>)
    requires ExpressibleDefinitions(defs) && members != [] && AllExpressible(members) && NoAlternatives(members)
    ensures InhabitsText(defs, depth, v, Joined(members, And))
            <==> forall i | 0 <= i < |members| :: HasShape(defs, depth, v, members[i])
    decreases depth, 1, members, 0
  {
    AllMean(defs, depth, v, members);
    forall i | 0 <= i < |members|
      ensures InhabitsText(defs, depth, v, TypeExpression(members[i])) <==> HasShape(defs, depth, v, members[i])
    {
      MemberIsExpressible(members, i);
      TypeIsShape(defs, depth, v, members[i]);
    }
  }

  lemma {:induction false} AllOfIsShape(defs: Definitions, depth: nat, v: Json, s: Schema)
    requires ExpressibleDefinitions(defs) && Expressible(s) && s.Keywords?
    requires s.ref.None? && s.constant.None? && s.enumeration.None? && s.allOf.List?
    ensures InhabitsText(defs, depth, v, TypeExpression(s)) <==> HasShape(defs, depth, v, s)
    decreases depth, 1, s, 0, 0
  {
    var members := s.allOf.members;
    if members != [] {
      EachIsShape(defs, depth, v, members);
    }
    if s.properties.Table? {
      var record := Members(ObjectMembers(s.properties.entries, s.required));
      AllOfWithMembers(s, record);
      AtomIsOnePart(record);
      SingleAtom(defs, depth, v, record);
      RecordIsShape(defs, depth, v, s.properties.entries, s.required);
      if members != [] {
        JoinedPrintsOnePart(members);
        PartsMeet(defs, depth, v, Joined(members, And), [Atom(record)]);
      } else {
        LeadingAnd(record);
        assert Joined(members, And) == [];
      }
    } else {
      assert TypeExpression(s) == Joined(members, And);
    }
  }

  lemma {:induction false} RecordIsShape(defs: Definitions, depth: nat, v: Json, properties: seq<Property>,
                                         required: seq<string>)
    requires ExpressibleDefinitions(defs) && PropertiesExpressible(properties)
    ensures InhabitsAtom(defs, depth, v, Members(ObjectMembers(properties, required)))
            <==> depth > 0 && IsRecord(v) && HasProperties(defs, depth - 1, v, properties, required)
    decreases depth, 0, 0
  {
    var members := ObjectMembers(properties, required);
    MembersTogether(defs, depth, v, members);
    if depth > 0 && IsRecord(v) {
      var below: nat := depth - 1;
      MembersAreShape(defs, below, v, properties, required);
      assert InhabitsMembers(defs, below, v, members) <==> HasProperties(defs, below, v, properties, required);
    }
  }

  predicate InhabitsMembers(defs: Definitions, depth: nat, v: Json, members: seq<Member>)
    requires IsRecord(v)
  {
    forall i | 0 <= i < |members| :: InhabitsMember(defs, depth, v, members[i])
  }

  lemma {:induction false} MembersTogether(defs: Definitions, depth: nat, v: Json, members: seq<Member>)
    ensures InhabitsAtom(defs, depth, v, Members(members))
            <==> depth > 0 && IsRecord(v) && InhabitsMembers(defs, depth - 1, v, members)
  {
  }

  lemma {:induction false} MembersAreShape(defs: Definitions, depth: nat, v: Json, properties: seq<Property>,
                                           required: seq<string>)
    requires ExpressibleDefinitions(defs) && PropertiesExpressible(properties) && IsRecord(v)
    ensures InhabitsMembers(defs, depth, v, ObjectMembers(properties, required))
            <==> HasProperties(defs, depth, v, properties, required)
    decreases depth, 2
  {
    var members := ObjectMembers(properties, required);
    if properties != [] {
      ObjectMembersAt(properties, required, 0);
    }
    forall i | 0 <= i < |properties|
      ensures |members| == |properties|
      ensures InhabitsMember(defs, depth, v, members[i])
              <==> match Lookup(v, properties[i].name)
                   case None => properties[i].name !in required
                   case Some(field) => HasShape(defs, depth, field, properties[i].schema)
    {
      ObjectMembersAt(properties, required, i);
      PropertyIsExpressible(properties, i);
      QuotedTextMeansItself(properties[i].name);
      var field := Lookup(v, properties[i].name);
      if field.Some? {
        TypeIsShape(defs, depth, field.value, properties[i].schema);
      }
    }
  }

  lemma {:induction false} KindsAreShape(defs: Definitions, depth: nat, v: Json, s: Schema)
    requires ExpressibleDefinitions(defs) && Expressible(s) && s.Keywords?
    requires s.ref.None? && s.constant.None? && s.enumeration.None?
    requires s.allOf.NoList? && s.oneOf.NoList? && s.anyOf.NoList?
    ensures InhabitsText(defs, depth, v, TypeExpression(s)) <==> HasShape(defs, depth, v, s)
    decreases depth, 1, s, 0, 0
  {
    var names := TypeNames(s.kind);
    if names == [] {
      SingleAtom(defs, depth, v, UnknownType);
    } else {
      var arrayText: seq<Token>, objectAtom := [Atom(ArrayOf(ElementOf(s)))], ObjectAtomOf(s);
      KindTexts(s);
      KindsMean(defs, depth, v, names, arrayText, objectAtom);
      forall i | 0 <= i < |names|
        ensures InhabitsText(defs, depth, v, SingleType(names[i], arrayText, objectAtom))
                <==> HasKind(defs, depth, v, s, names[i])
      {
        KindIsShape(defs, depth, v, s, names[i]);
      }
    }
  }

  lemma {:induction false} KindIsShape(defs: Definitions, depth: nat, v: Json, s: Schema, name: string)
    requires ExpressibleDefinitions(defs) && s.Keywords?
    requires s.items.Some? ==> Expressible(s.items.value)
    requires s.properties.Table? ==> PropertiesExpressible(s.properties.entries)
    ensures InhabitsText(defs, depth, v, SingleType(name, [Atom(ArrayOf(ElementOf(s)))], ObjectAtomOf(s)))
            <==> HasKind(defs, depth, v, s, name)
    decreases depth, 0, 1
  {
    var text := SingleType(name, [Atom(ArrayOf(ElementOf(s)))], ObjectAtomOf(s));
    SingleAtom(defs, depth, v, text[0].atom);
    assert text == [Atom(text[0].atom)];
    if name == "array" {
      ItemsAreShape(defs, depth, v, s);
    } else if name == "object" && s.properties.Table? {
      RecordIsShape(defs, depth, v, s.properties.entries, s.required);
    }
  }

  lemma {:induction false} ItemsAreShape(defs: Definitions, depth: nat, v: Json, s: Schema)
    requires ExpressibleDefinitions(defs) && s.Keywords? && (s.items.Some? ==> Expressible(s.items.value))
    ensures InhabitsAtom(defs, depth, v, ArrayOf(ElementOf(s))) <==> HasKind(defs, depth, v, s, "array")
    decreases depth, 0, 0
  {
    if depth > 0 && v.Arr? {
      forall i | 0 <= i < |v.items|
        ensures InhabitsText(defs, depth - 1, v.items[i], ElementOf(s))
                <==> (s.items.Some? ==> HasShape(defs, depth - 1, v.items[i], s.items.value))
      {
        if s.items.Some? {
          TypeIsShape(defs, depth - 1, v.items[i], s.items.value);
        } else {
          SingleAtom(defs, depth - 1, v.items[i], UnknownType);
        }
      }
    }
  }

  lemma {:induction false} NameIsShape(defs: Definitions, depth: nat, v: Json, name: string)
    requires ExpressibleDefinitions(defs)
    ensures InhabitsText(defs, depth, v, [Atom(Name(name))]) <==> IsNamed(defs, depth, v, name)
    decreases depth, 0, 0
  {
    SingleAtom(defs, depth, v, Name(name));
    if depth > 0 && name in defs {
      DeclarationIsShape(defs, depth - 1, v, name);
    }
  }

  lemma {:induction false} DeclarationIsShape(defs: Definitions, depth: nat, v: Json, name: string)
    requires ExpressibleDefinitions(defs) && name in defs
    ensures InhabitsDeclaration(defs, depth, v, DeclarationOf(defs, name))
            <==> IsNamed(defs, depth + 1, v, name)
    decreases depth, 3
  {
    if name == "Problem" {
      ProblemIsShape(defs, depth, v);
    } else if IsPlainObject(defs[name]) {
      if IsRecord(v) {
        MembersAreShape(defs, depth, v, defs[name].properties.entries, defs[name].required);
      }
    } else {
      TypeIsShape(defs, depth, v, defs[name]);
    }
  }

  lemma {:induction false} SupplementMeans(defs: Definitions, depth: nat, v: Json)
    ensures InhabitsDeclaration(defs, depth, v, PROBLEM_SUPPLEMENT)
            <==> && IsRecord(v)
                 && InhabitsMember(defs, depth, v, PROBLEM_SUPPLEMENT.members[0])
                 && InhabitsMember(defs, depth, v, PROBLEM_SUPPLEMENT.members[1])
                 && InhabitsMember(defs, depth, v, PROBLEM_SUPPLEMENT.members[2])
  {
    if IsRecord(v) && InhabitsMember(defs, depth, v, PROBLEM_SUPPLEMENT.members[0])
       && InhabitsMember(defs, depth, v, PROBLEM_SUPPLEMENT.members[1])
       && InhabitsMember(defs, depth, v, PROBLEM_SUPPLEMENT.members[2])
    {
      ThreeMembers(defs, depth, v);
    }
  }

  lemma {:induction false} ProblemIsShape(defs: Definitions, depth: nat, v: Json)
    requires ExpressibleDefinitions(defs)
    ensures InhabitsDeclaration(defs, depth, v, PROBLEM_SUPPLEMENT) <==> IsProblem(defs, depth, v)
    decreases depth, 2
  {
    SupplementMeans(defs, depth, v);
    if IsRecord(v) {
      CodeIsShape(defs, depth, v);
      MessageIsShape(defs, depth, v);
      DiagnosticsAreShape(defs, depth, v);
    }
  }

  lemma {:induction false} CodeIsShape(defs: Definitions, depth: nat, v: Json)
    requires ExpressibleDefinitions(defs) && IsRecord(v)
    ensures InhabitsMember(defs, depth, v, PROBLEM_SUPPLEMENT.members[0])
            <==> match Lookup(v, "code")
                 case None => false
                 case Some(code) =>
                   code == Str("invalid_response") || code == Str("network_error")
                   || IsNamed(defs, depth, code, "ProblemCode")
    decreases depth, 1
  {
    SupplementNames();
    if Lookup(v, "code").Some? {
      var code := Lookup(v, "code").value;
      CodeText(defs, depth, code);
      NameIsShape(defs, depth, code, "ProblemCode");
    }
  }

  lemma {:induction false} QuotedMeans(defs: Definitions, depth: nat, v: Json, text: string)
    requires IsPlainText(text)
    ensures InhabitsText(defs, depth, v, [Atom(Quoted(text))]) <==> v == Str(text)
  {
    SingleAtom(defs, depth, v, Quoted(text));
    QuotedTextMeansItself(text);
  }

  lemma {:induction false} CodeText(defs: Definitions, depth: nat, code: Json)
    ensures InhabitsText(defs, depth, code, PROBLEM_SUPPLEMENT.members[0].text)
            <==> || InhabitsText(defs, depth, code, [Atom(Name("ProblemCode"))])
                 || code == Str("invalid_response") || code == Str("network_error")
  {
    QuotedMeans(defs, depth, code, "invalid_response");
    QuotedMeans(defs, depth, code, "network_error");
    ThreeAtoms(defs, depth, code, Name("ProblemCode"), Quoted("invalid_response"), Quoted("network_error"));
  }

  lemma {:induction false} ThreeAtoms(defs: Definitions, depth: nat, v: Json, a: TypeAtom, b: TypeAtom, c: TypeAtom)
    ensures InhabitsText(defs, depth, v, [Atom(a), Or, Atom(b), Or, Atom(c)])
            <==> || InhabitsText(defs, depth, v, [Atom(a)]) || InhabitsText(defs, depth, v, [Atom(b)])
                 || InhabitsText(defs, depth, v, [Atom(c)])
  {
    var x: seq<Token>, y: seq<Token>, z: seq<Token> := [Atom(a)], [Atom(b)], [Atom(c)];
    UnionHolds(defs, depth, v, y, z);
    UnionHolds(defs, depth, v, x, y + ([Or] + z));
    assert [Atom(a), Or, Atom(b), Or, Atom(c)] == x + ([Or] + (y + ([Or] + z)));
  }

  lemma {:induction false} MessageIsShape(defs: Definitions, depth: nat, v: Json)
    requires IsRecord(v)
    ensures InhabitsMember(defs, depth, v, PROBLEM_SUPPLEMENT.members[1])
            <==> match Lookup(v, "message")
                 case None => false
                 case Some(message) => message.Str?
  {
    SupplementNames();
    if Lookup(v, "message").Some? {
      SingleAtom(defs, depth, Lookup(v, "message").value, StringType);
    }
  }

  lemma {:induction false} DiagnosticsAreShape(defs: Definitions, depth: nat, v: Json)
    requires ExpressibleDefinitions(defs) && IsRecord(v)
    ensures InhabitsMember(defs, depth, v, PROBLEM_SUPPLEMENT.members[2])
            <==> match Lookup(v, "diagnostics")
                 case None => true
                 case Some(list) =>
                   depth > 0 && list.Arr?
                   && forall i | 0 <= i < |list.items| :: IsNamed(defs, depth - 1, list.items[i], "NoteDiagnostic")
    decreases depth, 1
  {
    SupplementNames();
    if Lookup(v, "diagnostics").Some? {
      var list := Lookup(v, "diagnostics").value;
      SingleAtom(defs, depth, list, ArrayOf([Atom(Name("NoteDiagnostic"))]));
      if depth > 0 && list.Arr? {
        forall i | 0 <= i < |list.items|
          ensures InhabitsText(defs, depth - 1, list.items[i], [Atom(Name("NoteDiagnostic"))])
                  <==> IsNamed(defs, depth - 1, list.items[i], "NoteDiagnostic")
        {
          NameIsShape(defs, depth - 1, list.items[i], "NoteDiagnostic");
        }
      }
    }
  }
}
