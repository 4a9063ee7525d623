// Soundness of the generated types: whatever the emitted validator accepts inhabits the type that is
// generated from the same schema (crates/marginalis-contract/src/typescript.rs).
module SchemaSoundness {
  import opened JsonValues
  import opened Options
  import opened SchemaValidator
  import opened TypeText

  // ---------------------------------------------------------------- meaning of types

  // Membership of a value in a type, unfolding at most `depth` levels of names, arrays and members.
  predicate InhabitsAtom(defs: Definitions, depth: nat, v: Json, a: TypeAtom)
    decreases depth, 0
  {
    match a
    case UnknownType => true
    case NeverType => false
    case StringType => v.Str?
    case NumberType => v.Number?
    case BooleanType => v.Bool?
    case NullType => v.Null?
    case AnyRecord => IsRecord(v)
    case Quoted(text) => v.Str? && ReadQuoted(text) == Some(v.s)
    case Constant(value) => SameText(v, value)
    case Name(name) => depth > 0 && name in defs && InhabitsDeclaration(defs, depth - 1, v, DeclarationOf(defs, name))
    case ArrayOf(element) =>
      depth > 0 && v.Arr? && forall i | 0 <= i < |v.items| :: InhabitsText(defs, depth - 1, v.items[i], element)
    case Members(members) =>
      depth > 0 && IsRecord(v) && forall i | 0 <= i < |members| :: InhabitsMember(defs, depth - 1, v, members[i])
  }

  // A nonempty part of the union all of whose atoms hold the value.
  predicate InhabitsSegment(defs: Definitions, depth: nat, v: Json, segment: seq<TypeAtom>)
    decreases depth, 1
  {
    segment != [] && forall i | 0 <= i < |segment| :: InhabitsAtom(defs, depth, v, segment[i])
  }

  predicate InhabitsText(defs: Definitions, depth: nat, v: Json, text: seq<Token>)
    decreases depth, 2
  {
    exists i | 0 <= i < |Segments(text)| :: InhabitsSegment(defs, depth, v, Segments(text)[i])
  }

  predicate InhabitsMember(defs: Definitions, depth: nat, v: Json, m: Member)
    requires IsRecord(v)
    decreases depth, 3
  {
    var name := ReadMemberName(m.printed);
    name.Some? &&
    match Lookup(v, name.value)
    case None => m.optional
    case Some(field) => InhabitsText(defs, depth, field, m.text)
  }

  predicate InhabitsDeclaration(defs: Definitions, depth: nat, v: Json, d: Declaration)
    decreases depth, 4
  {
    match d
    case Interface(members) => IsRecord(v)
        && forall i | 0 <= i < |members| :: InhabitsMember(defs, depth, v, members[i])
    case Alias(text) => InhabitsText(defs, depth, v, text)
  }

  // ---------------------------------------------------------------- unfolding deeper keeps membership

  lemma {:induction false} AtomMonotone(defs: Definitions, depth: nat, v: Json, a: TypeAtom)
    requires InhabitsAtom(defs, depth, v, a)
    ensures InhabitsAtom(defs, depth + 1, v, a)
    decreases depth, 1
  {
    if a.Name? {
      DeclarationMonotone(defs, depth - 1, v, DeclarationOf(defs, a.name));
    } else if a.ArrayOf? {
      ArrayMonotone(defs, depth, v, a.element);
    } else if a.Members? {
      MembersMonotone(defs, depth, v, a.members);
    }
  }

  lemma {:induction false} ArrayMonotone(defs: Definitions, depth: nat, v: Json, element: seq<Token>)
    requires InhabitsAtom(defs, depth, v, ArrayOf(element))
    ensures InhabitsAtom(defs, depth + 1, v, ArrayOf(element))
    decreases depth, 0
  {
    forall i | 0 <= i < |v.items|
      ensures InhabitsText(defs, depth, v.items[i], element)
    {
      TextMonotone(defs, depth - 1, v.items[i], element);
    }
  }

  lemma {:induction false} MembersMonotone(defs: Definitions, depth: nat, v: Json, members: seq<Member>)
    requires InhabitsAtom(defs, depth, v, Members(members))
    ensures InhabitsAtom(defs, depth + 1, v, Members(members))
    decreases depth, 0
  {
    forall i | 0 <= i < |members|
      ensures InhabitsMember(defs, depth, v, members[i])
    {
      MemberMonotone(defs, depth - 1, v, members[i]);
    }
  }

  lemma {:induction false} TextMonotone(defs: Definitions, depth: nat, v: Json, text: seq<Token>)
    requires InhabitsText(defs, depth, v, text)
    ensures InhabitsText(defs, depth + 1, v, text)
    decreases depth, 2
  {
    var i :| 0 <= i < |Segments(text)| && InhabitsSegment(defs, depth, v, Segments(text)[i]);
    var segment := Segments(text)[i];
    forall j | 0 <= j < |segment|
      ensures InhabitsAtom(defs, depth + 1, v, segment[j])
    {
      AtomMonotone(defs, depth, v, segment[j]);
    }
    assert InhabitsSegment(defs, depth + 1, v, Segments(text)[i]);
  }

  lemma {:induction false} MemberMonotone(defs: Definitions, depth: nat, v: Json, m: Member)
    requires IsRecord(v) && InhabitsMember(defs, depth, v, m)
    ensures InhabitsMember(defs, depth + 1, v, m)
    decreases depth, 3
  {
    var field := Lookup(v, ReadMemberName(m.printed).value);
    if field.Some? {
      TextMonotone(defs, depth, field.value, m.text);
    }
  }

  lemma {:induction false} DeclarationMonotone(defs: Definitions, depth: nat, v: Json, d: Declaration)
    requires InhabitsDeclaration(defs, depth, v, d)
    ensures InhabitsDeclaration(defs, depth + 1, v, d)
    decreases depth, 4
  {
    match d
    case Interface(members) =>
      forall i | 0 <= i < |members|
        ensures InhabitsMember(defs, depth + 1, v, members[i])
      {
        MemberMonotone(defs, depth, v, members[i]);
      }
    case Alias(text) => TextMonotone(defs, depth, v, text);
  }

  // ---------------------------------------------------------------- texts put together

  lemma {:induction false} SingleAtom(defs: Definitions, depth: nat, v: Json, a: TypeAtom)
    ensures InhabitsText(defs, depth, v, [Atom(a)]) <==> InhabitsAtom(defs, depth, v, a)
  {
    var text := [Atom(a)];
    assert text[1..] == [];
    assert Segments(text[1..]) == [[]];
    assert Segments(text) == [[a] + []] + [];
    assert [a] + [] == [a];
    if InhabitsAtom(defs, depth, v, a) {
      assert InhabitsSegment(defs, depth, v, Segments(text)[0]);
    } else {
      forall i | 0 <= i < |Segments(text)|
        ensures !InhabitsSegment(defs, depth, v, Segments(text)[i])
      {
        assert Segments(text)[i][0] == a;
      }
    }
  }

  lemma {:induction false} SegmentsAfterOr(x: seq<Token>, y: seq<Token>)
    ensures Segments(x + ([Or] + y)) == Segments(x) + Segments(y)
  {
    SegmentsOfConcatenation(x, [Or] + y);
    assert ([Or] + y)[1..] == y;
    var a, b := Segments(x), Segments(y);
    assert a[|a| - 1] + [] == a[|a| - 1];
    assert Glue(a, [[]] + b) == a + b;
  }

  lemma {:induction false} SegmentsAfterAnd(x: seq<Token>, y: seq<Token>)
    ensures Segments(x + ([And] + y)) == Glue(Segments(x), Segments(y))
  {
    SegmentsOfConcatenation(x, [And] + y);
    assert ([And] + y)[1..] == y;
  }

  // A union holds exactly the values that either side does.
  lemma {:induction false} UnionHolds(defs: Definitions, depth: nat, v: Json, x: seq<Token>, y: seq<Token>)
    ensures InhabitsText(defs, depth, v, x + ([Or] + y))
            <==> InhabitsText(defs, depth, v, x) || InhabitsText(defs, depth, v, y)
  {
    SegmentsAfterOr(x, y);
    SomeOfBoth((segment: seq<TypeAtom>) => InhabitsSegment(defs, depth, v, segment), Segments(x), Segments(y));
  }

  lemma {:induction false} SomeOfBoth(holds: seq<TypeAtom> -> bool, a: seq<seq<TypeAtom>>, b: seq<seq<TypeAtom>>)
    ensures (exists k | 0 <= k < |a + b| :: holds((a + b)[k]))
       <==> (exists i | 0 <= i < |a| :: holds(a[i])) || (exists j | 0 <= j < |b| :: holds(b[j]))
  {
    assert forall i | 0 <= i < |a| :: (a + b)[i] == a[i];
    assert forall j | 0 <= j < |b| :: (a + b)[|a| + j] == b[j];
    assert forall k | |a| <= k < |a + b| :: (a + b)[k] == b[k - |a|];
  }

  // Without parentheses an intersection of unions is read with the wrong grouping, but that only
  // widens it: whatever both sides hold, the text holds.
  lemma {:induction false} IntersectionHolds(defs: Definitions, depth: nat, v: Json, x: seq<Token>, y: seq<Token>)
    requires InhabitsText(defs, depth, v, x) && InhabitsText(defs, depth, v, y)
    ensures InhabitsText(defs, depth, v, x + ([And] + y))
  {
    SegmentsAfterAnd(x, y);
    var a, b := Segments(x), Segments(y);
    var whole := Glue(a, b);
    var i :| 0 <= i < |a| && InhabitsSegment(defs, depth, v, a[i]);
    var j :| 0 <= j < |b| && InhabitsSegment(defs, depth, v, b[j]);
    if i < |a| - 1 {
      assert whole[i] == a[i];
    } else if j > 0 {
      assert whole[|a| - 1 + j] == b[j];
    } else {
      assert whole[|a| - 1] == a[i] + b[j];
      assert InhabitsSegment(defs, depth, v, whole[|a| - 1]);
    }
  }

  // The text holds what an earlier part of the left side holds, what a later part of the right side
  // holds, and what the two parts that meet hold together.
  lemma {:induction false} IntersectionMeans(defs: Definitions, depth: nat, v: Json, x: seq<Token>, y: seq<Token>)
    ensures var a, b := Segments(x), Segments(y);
            InhabitsText(defs, depth, v, x + ([And] + y))
            <==> || (exists i | 0 <= i < |a| - 1 :: InhabitsSegment(defs, depth, v, a[i]))
                 || (exists j | 0 < j < |b| :: InhabitsSegment(defs, depth, v, b[j]))
                 || InhabitsSegment(defs, depth, v, a[|a| - 1] + b[0])
  {
    SegmentsAfterAnd(x, y);
    GlueHolds((segment: seq<TypeAtom>) => InhabitsSegment(defs, depth, v, segment), Segments(x), Segments(y));
  }

  lemma {:induction false} GlueHolds(holds: seq<TypeAtom> -> bool, a: seq<seq<TypeAtom>>, b: seq<seq<TypeAtom>>)
    requires a != [] && b != []
    ensures (exists k | 0 <= k < |Glue(a, b)| :: holds(Glue(a, b)[k]))
       <==> || (exists i | 0 <= i < |a| - 1 :: holds(a[i])) || (exists j | 0 < j < |b| :: holds(b[j]))
            || holds(a[|a| - 1] + b[0])
  {
    var whole, last := Glue(a, b), |a| - 1;
    assert forall i | 0 <= i < last :: whole[i] == a[i];
    assert forall j | 0 < j < |b| :: whole[last + j] == b[j];
    assert whole[last] == a[last] + b[0];
    assert forall k | last < k < |whole| :: whole[k] == b[k - last];
  }

  // So the wrong grouping does widen: what the first of two alternatives holds belongs to the text
  // generated for their intersection with any type.
  lemma {:induction false} IntersectionTextIsWider(defs: Definitions, depth: nat, v: Json, first: TypeAtom,
                                                   second: TypeAtom, other: TypeAtom)
    requires InhabitsAtom(defs, depth, v, first) && !InhabitsAtom(defs, depth, v, other)
    ensures InhabitsText(defs, depth, v, [Atom(first), Or, Atom(second)] + ([And] + [Atom(other)]))
    ensures !InhabitsText(defs, depth, v, [Atom(other)])
  {
    var either: seq<Token> := [Atom(first), Or, Atom(second)];
    SingleAtom(defs, depth, v, other);
    IntersectionMeans(defs, depth, v, either, [Atom(other)]);
    SegmentsAfterOr([Atom(first)], [Atom(second)]);
    assert either == [Atom(first)] + ([Or] + [Atom(second)]);
    assert [Atom(first)][1..] == [] && [first] + [] == [first];
    assert Segments([]) == [[]];
    assert Segments([Atom(first)]) == [[first] + []] + [];
    assert Segments(either)[0] == [first];
    assert InhabitsSegment(defs, depth, v, Segments(either)[0]);
  }

  // ---------------------------------------------------------------- schemas that print well

  predicate PlainConstant(value: Json) {
    value.Str? ==> IsPlainText(value.s)
  }

  // A nonempty list of types, all of them "object".
  predicate OnlyObjects(kind: TypeKeyword) {
    TypeNames(kind) != [] && forall i | 0 <= i < |TypeNames(kind)| :: TypeNames(kind)[i] == "object"
  }

  // What the generator needs from a schema, following the branch it takes: string constants and
  // property names that print as themselves, no empty allOf, and no object members added to an allOf
  // that admits other values than objects.
  predicate Printable(s: Schema)
    decreases s, 1
  {
    s.Keywords? && s.ref.None? ==>
      if s.constant.Some? then PlainConstant(s.constant.value)
      else if s.enumeration.Some? then forall i | 0 <= i < |s.enumeration.value| ::
          PlainConstant(s.enumeration.value[i])
      else if s.allOf.List? then
        && AllPrintable(s.allOf.members)
        && (s.allOf.members != [] || s.properties.Table?)
        && (s.properties.Table? ==> OnlyObjects(s.kind) && PropertiesPrintable(s.properties.entries))
      else if s.oneOf.List? then AllPrintable(s.oneOf.members)
      else if s.anyOf.List? then AllPrintable(s.anyOf.members)
      else
        && (s.items.Some? ==> Printable(s.items.value))
        && (s.properties.Table? ==> PropertiesPrintable(s.properties.entries))
  }

  predicate AllPrintable(members: seq<Schema>)
    decreases members, 0
  {
    members == [] || (Printable(members[0]) && AllPrintable(members[1..]))
  }

  predicate PropertiesPrintable(properties: seq<Property>)
    decreases properties, 0
  {
    properties == []
    || (properties[0].name != "" && IsPlainText(properties[0].name) && Printable(properties[0].schema)
        && PropertiesPrintable(properties[1..]))
  }

  // The schema of Problem fits the hand-written declaration.
  ghost predicate FitsSupplement(s: Schema) {
    && s.Keywords? && s.ref.None? && s.kind == One("object") && s.properties.Table?
    && "code" in s.required && "message" in s.required
    && (exists p | p in s.properties.entries :: IsCode(p))
    && (exists p | p in s.properties.entries :: IsMessage(p))
    && (exists p | p in s.properties.entries :: IsDiagnostics(p))
  }

  predicate IsCode(p: Property) {
    p.name == "code" && RefersTo(p.schema, "ProblemCode")
  }

  predicate IsMessage(p: Property) {
    p.name == "message" && p.schema.Keywords? && p.schema.ref.None? && p.schema.kind == One("string")
  }

  predicate IsDiagnostics(p: Property) {
    && p.name == "diagnostics" && p.schema.Keywords? && p.schema.ref.None? && p.schema.kind == One("array")
    && p.schema.items.Some? && RefersTo(p.schema.items.value, "NoteDiagnostic")
  }

  predicate RefersTo(s: Schema, name: string) {
    s.Keywords? && s.ref.Some? && LastSegment(s.ref.value) == name
  }

  // No interface is generated from a schema that the validator would skip for a reference.
  ghost predicate GoodDefinitions(defs: Definitions) {
    && (forall name | name in defs && name != "Problem" ::
          && Printable(defs[name])
          && (IsPlainObject(defs[name]) ==> defs[name].ref.None? && PropertiesPrintable(defs[name].properties.entries)))
    && ("Problem" in defs ==> FitsSupplement(defs["Problem"]))
  }

  // ---------------------------------------------------------------- soundness

  lemma {:induction false} LiteralHolds(defs: Definitions, depth: nat, v: Json, constant: Json)
    requires SameText(v, constant) && PlainConstant(constant)
    ensures InhabitsText(defs, depth, v, LiteralText(constant))
  {
    if constant.Str? {
      QuotedTextMeansItself(constant.s);
      SingleAtom(defs, depth, v, Quoted(constant.s));
    } else {
      SingleAtom(defs, depth, v, Constant(constant));
    }
  }

  lemma {:induction false} LiteralUnionHolds(defs: Definitions, depth: nat, v: Json, values: seq<Json>, i: nat)
    requires i < |values| && SameText(v, values[i]) && PlainConstant(values[i])
    ensures InhabitsText(defs, depth, v, LiteralUnion(values))
  {
    if i == 0 {
      LiteralHolds(defs, depth, v, values[0]);
    } else {
      LiteralUnionHolds(defs, depth, v, values[1..], i - 1);
    }
    if |values| == 1 {
      assert LiteralUnion(values) == LiteralText(values[0]);
    } else {
      UnionHolds(defs, depth, v, LiteralText(values[0]), LiteralUnion(values[1..]));
    }
  }

  lemma {:induction false} KindUnionHolds(defs: Definitions, depth: nat, v: Json, names: seq<string>, i: nat,
                                          arrayText: seq<Token>, objectAtom: TypeAtom)
    requires i < |names| && InhabitsText(defs, depth, v, SingleType(names[i], arrayText, objectAtom))
    ensures InhabitsText(defs, depth, v, KindUnion(names, arrayText, objectAtom))
  {
    if i > 0 {
      KindUnionHolds(defs, depth, v, names[1..], i - 1, arrayText, objectAtom);
    }
    var first := SingleType(names[0], arrayText, objectAtom);
    if |names| == 1 {
      assert first + [] == first;
    } else {
      UnionHolds(defs, depth, v, first, KindUnion(names[1..], arrayText, objectAtom));
    }
  }

  // Every value that the validator accepts inhabits the generated type.
  lemma {:induction false} TypeSound(defs: Definitions, depth: nat, v: Json, s: Schema)
    requires GoodDefinitions(defs) && Printable(s) && Accepts(defs, depth, v, s)
    ensures InhabitsText(defs, depth, v, TypeExpression(s))
    decreases depth, 8
  {
    match s
    case Always => SingleAtom(defs, depth, v, UnknownType);
    case Never =>
    case Other => SingleAtom(defs, depth, v, UnknownType);
    case Keywords(_, _, _, _, _, _, _, _, _, _, _, _) =>
      if s.ref.Some? {
        var name := LastSegment(s.ref.value);
        ReferenceSound(defs, depth, v, s, name);
        assert TypeExpression(s) == [Atom(Name(name))];
      } else if s.constant.Some? {
        assert TypeExpression(s) == LiteralText(s.constant.value);
        LiteralHolds(defs, depth, v, s.constant.value);
      } else if s.enumeration.Some? {
        var i :| 0 <= i < |s.enumeration.value| && SameText(v, s.enumeration.value[i]);
        LiteralUnionHolds(defs, depth, v, s.enumeration.value, i);
        assert TypeExpression(s) == LiteralUnion(s.enumeration.value);
      } else if s.allOf.List? {
        AllOfSound(defs, depth, v, s);
      } else if Alternatives(s).List? {
        var i :| 0 <= i < |Alternatives(s).members| && Accepts(defs, depth - 1, v, Alternatives(s).members[i]);
        AnyOfSound(defs, depth, v, Alternatives(s).members, i);
        assert TypeExpression(s) == Joined(Alternatives(s).members, Or);
      } else {
        KindsSound(defs, depth, v, s);
      }
  }

  lemma {:induction false} DeclarationSound(defs: Definitions, depth: nat, v: Json, name: string)
    requires GoodDefinitions(defs) && name in defs && Accepts(defs, depth, v, defs[name])
    ensures InhabitsDeclaration(defs, depth, v, DeclarationOf(defs, name))
    decreases depth, 9
  {
    var s := defs[name];
    if name == "Problem" {
      SupplementSound(defs, depth, v, s);
    } else if IsPlainObject(s) {
      MembersSound(defs, depth, v, s);
      DeclarationMonotone(defs, depth - 1, v, Interface(ObjectMembers(s.properties.entries, s.required)));
    } else {
      TypeSound(defs, depth, v, s);
    }
  }

  // The members of an accepted record.
  lemma {:induction false} MembersSound(defs: Definitions, depth: nat, v: Json, s: Schema)
    requires GoodDefinitions(defs) && s.Keywords? && s.ref.None? && s.properties.Table?
    requires PropertiesPrintable(s.properties.entries)
    requires depth > 0 && Accepts(defs, depth, v, s) && OnlyObjects(s.kind)
    ensures IsRecord(v)
    ensures |ObjectMembers(s.properties.entries, s.required)| == |s.properties.entries|
    ensures forall i | 0 <= i < |s.properties.entries| ::
              InhabitsMember(defs, depth - 1, v, ObjectMembers(s.properties.entries, s.required)[i])
    decreases depth, 6
  {
    var kind :| kind in TypeNames(s.kind) && MatchesType(v, kind);
    RecordMembersSound(defs, depth, v, s);
  }

  lemma {:induction false} ObjectMembersAt(properties: seq<Property>, required: seq<string>, i: nat)
    requires i < |properties|
    ensures |ObjectMembers(properties, required)| == |properties|
    ensures ObjectMembers(properties, required)[i]
            == Member(properties[i].name, properties[i].name !in required, TypeExpression(properties[i].schema))
  {
    if i > 0 {
      ObjectMembersAt(properties[1..], required, i - 1);
    } else if |properties| > 1 {
      ObjectMembersAt(properties[1..], required, 0);
    }
  }

  lemma {:induction false} PropertyIsPrintable(properties: seq<Property>, i: nat)
    requires PropertiesPrintable(properties) && i < |properties|
    ensures properties[i].name != "" && IsPlainText(properties[i].name) && Printable(properties[i].schema)
  {
    if i > 0 {
      PropertyIsPrintable(properties[1..], i - 1);
    }
  }

  lemma {:induction false} RecordMembersSound(defs: Definitions, depth: nat, v: Json, s: Schema)
    requires GoodDefinitions(defs) && s.Keywords? && s.ref.None? && s.properties.Table?
    requires PropertiesPrintable(s.properties.entries)
    requires depth > 0 && Accepts(defs, depth, v, s) && IsRecord(v)
    ensures |ObjectMembers(s.properties.entries, s.required)| == |s.properties.entries|
    ensures forall i | 0 <= i < |s.properties.entries| ::
              InhabitsMember(defs, depth - 1, v, ObjectMembers(s.properties.entries, s.required)[i])
    decreases depth, 5
  {
    var properties := s.properties.entries;
    if properties != [] {
      ObjectMembersAt(properties, s.required, 0);
    }
    forall i | 0 <= i < |properties|
      ensures InhabitsMember(defs, depth - 1, v, ObjectMembers(properties, s.required)[i])
    {
      ObjectMembersAt(properties, s.required, i);
      PropertyIsPrintable(properties, i);
      QuotedTextMeansItself(properties[i].name);
      var field := Lookup(v, properties[i].name);
      if field.Some? {
        assert Properties(s)[i] == properties[i];
        TypeSound(defs, depth - 1, field.value, properties[i].schema);
      }
    }
  }

  lemma {:induction false} AllOfSound(defs: Definitions, depth: nat, v: Json, s: Schema)
    requires GoodDefinitions(defs) && Printable(s) && Accepts(defs, depth, v, s)
    requires s.Keywords? && s.ref.None? && s.constant.None? && s.enumeration.None? && s.allOf.List?
    ensures InhabitsText(defs, depth, v, TypeExpression(s))
    decreases depth, 7
  {
    var members := s.allOf.members;
    if members != [] {
      JoinedAndHolds(defs, depth, v, members);
    }
    if s.properties.Table? {
      MembersSound(defs, depth, v, s);
      var m := Members(ObjectMembers(s.properties.entries, s.required));
      SingleAtom(defs, depth, v, m);
      assert [And, Atom(m)] == [And] + [Atom(m)];
      assert TypeExpression(s) == Joined(members, And) + ([And] + [Atom(m)]);
      if members != [] {
        IntersectionHolds(defs, depth, v, Joined(members, And), [Atom(m)]);
      } else {
        assert Joined(members, And) == [];
        SegmentsAfterAnd([], [Atom(m)]);
        assert [] + ([And] + [Atom(m)]) == [And] + [Atom(m)];
        assert Segments([])[0] + Segments([Atom(m)])[0] == Segments([Atom(m)])[0];
        assert Glue(Segments([]), Segments([Atom(m)])) == Segments([Atom(m)]);
      }
    } else {
      assert TypeExpression(s) == Joined(members, And);
    }
  }

  lemma {:induction false} JoinedAndHolds(defs: Definitions, depth: nat, v: Json, members: seq<Schema>)
    requires GoodDefinitions(defs) && AllPrintable(members) && members != [] && depth > 0
    requires forall i | 0 <= i < |members| :: Accepts(defs, depth - 1, v, members[i])
    ensures InhabitsText(defs, depth, v, Joined(members, And))
    decreases depth, 5, |members|
  {
    TypeSound(defs, depth - 1, v, members[0]);
    TextMonotone(defs, depth - 1, v, TypeExpression(members[0]));
    if |members| == 1 {
      assert Joined(members, And) == TypeExpression(members[0]);
    } else {
      forall i | 0 <= i < |members[1..]|
        ensures Accepts(defs, depth - 1, v, members[1..][i])
      {
        assert members[1..][i] == members[i + 1];
      }
      JoinedAndHolds(defs, depth, v, members[1..]);
      IntersectionHolds(defs, depth, v, TypeExpression(members[0]), Joined(members[1..], And));
    }
  }

  lemma {:induction false} AnyOfSound(defs: Definitions, depth: nat, v: Json, members: seq<Schema>, i: nat)
    requires GoodDefinitions(defs) && AllPrintable(members) && i < |members| && depth > 0
    requires Accepts(defs, depth - 1, v, members[i])
    ensures InhabitsText(defs, depth, v, Joined(members, Or))
    decreases depth, 5, |members|
  {
    if i == 0 {
      TypeSound(defs, depth - 1, v, members[0]);
      TextMonotone(defs, depth - 1, v, TypeExpression(members[0]));
    } else {
      AnyOfSound(defs, depth, v, members[1..], i - 1);
    }
    if |members| == 1 {
      assert Joined(members, Or) == TypeExpression(members[0]);
    } else {
      UnionHolds(defs, depth, v, TypeExpression(members[0]), Joined(members[1..], Or));
    }
  }

  lemma {:induction false} KindsSound(defs: Definitions, depth: nat, v: Json, s: Schema)
    requires GoodDefinitions(defs) && Printable(s) && Accepts(defs, depth, v, s)
    requires s.Keywords? && s.ref.None? && s.constant.None? && s.enumeration.None?
    requires s.allOf.NoList? && s.oneOf.NoList? && s.anyOf.NoList?
    ensures InhabitsText(defs, depth, v, TypeExpression(s))
    decreases depth, 7
  {
    if TypeNames(s.kind) == [] {
      assert TypeExpression(s) == [Atom(UnknownType)];
      SingleAtom(defs, depth, v, UnknownType);
    } else {
      var arrayText := if s.items.Some? then ArrayText(TypeExpression(s.items.value))
          else [Atom(ArrayOf([Atom(UnknownType)]))];
      var objectAtom := if s.properties.Table? then Members(ObjectMembers(s.properties.entries, s.required))
          else AnyRecord;
      var kind :| kind in TypeNames(s.kind) && MatchesType(v, kind);
      var i :| 0 <= i < |TypeNames(s.kind)| && TypeNames(s.kind)[i] == kind;
      if kind == "array" {
        ArraySound(defs, depth, v, s);
        assert SingleType(kind, arrayText, objectAtom) == arrayText;
      } else if kind == "object" {
        ObjectSound(defs, depth, v, s);
        SingleAtom(defs, depth, v, objectAtom);
        assert SingleType(kind, arrayText, objectAtom) == [Atom(objectAtom)];
      } else {
        ScalarSound(defs, depth, v, kind, arrayText, objectAtom);
      }
      KindUnionHolds(defs, depth, v, TypeNames(s.kind), i, arrayText, objectAtom);
      assert TypeExpression(s) == KindUnion(TypeNames(s.kind), arrayText, objectAtom);
    }
  }

  lemma {:induction false} ObjectSound(defs: Definitions, depth: nat, v: Json, s: Schema)
    requires GoodDefinitions(defs) && s.Keywords? && s.ref.None? && depth > 0
    requires s.properties.Table? ==> PropertiesPrintable(s.properties.entries)
    requires Accepts(defs, depth, v, s) && IsRecord(v)
    ensures InhabitsAtom(defs, depth, v,
              if s.properties.Table? then Members(ObjectMembers(s.properties.entries, s.required)) else AnyRecord)
    decreases depth, 6
  {
    if s.properties.Table? {
      RecordMembersSound(defs, depth, v, s);
    }
  }

  lemma {:induction false} ScalarSound(defs: Definitions, depth: nat, v: Json, kind: string, arrayText: seq<Token>,
                                       objectAtom: TypeAtom)
    requires MatchesType(v, kind) && kind != "array" && kind != "object"
    ensures InhabitsText(defs, depth, v, SingleType(kind, arrayText, objectAtom))
  {
    var text := SingleType(kind, arrayText, objectAtom);
    assert |text| == 1 && text[0].Atom?;
    SingleAtom(defs, depth, v, text[0].atom);
    assert text == [Atom(text[0].atom)];
  }

  lemma {:induction false} ArraySound(defs: Definitions, depth: nat, v: Json, s: Schema)
    requires GoodDefinitions(defs) && s.Keywords? && s.ref.None? && depth > 0
    requires Accepts(defs, depth, v, s) && v.Arr? && (s.items.Some? ==> Printable(s.items.value))
    ensures InhabitsText(defs, depth, v,
              if s.items.Some? then ArrayText(TypeExpression(s.items.value)) else [Atom(ArrayOf([Atom(UnknownType)]))])
    decreases depth, 5
  {
    var element := if s.items.Some? then TypeExpression(s.items.value) else [Atom(UnknownType)];
    forall i | 0 <= i < |v.items|
      ensures InhabitsText(defs, depth - 1, v.items[i], element)
    {
      if s.items.Some? {
        TypeSound(defs, depth - 1, v.items[i], s.items.value);
      } else {
        SingleAtom(defs, depth - 1, v.items[i], UnknownType);
      }
    }
    SingleAtom(defs, depth, v, ArrayOf(element));
    if !HasSpace(element) && element != [] {
      assert element == [element[0]];
      assert element[..0] + [Atom(ArrayOf([element[0]]))] == [Atom(ArrayOf(element))];
    }
  }

  // ---------------------------------------------------------------- the hand-written declaration

  lemma {:induction false} SupplementSound(defs: Definitions, depth: nat, v: Json, s: Schema)
    requires GoodDefinitions(defs) && FitsSupplement(s) && Accepts(defs, depth, v, s)
    ensures InhabitsDeclaration(defs, depth, v, PROBLEM_SUPPLEMENT)
    decreases depth, 7
  {
    OneKind(v, s);
    forall i | 0 <= i < 3
      ensures InhabitsMember(defs, depth, v, PROBLEM_SUPPLEMENT.members[i])
    {
      SupplementMemberSound(defs, depth, v, s, i);
    }
    ThreeMembers(defs, depth, v);
  }

  lemma {:induction false} SupplementMemberSound(defs: Definitions, depth: nat, v: Json, s: Schema, i: nat)
    requires GoodDefinitions(defs) && FitsSupplement(s) && Accepts(defs, depth, v, s) && IsRecord(v) && i < 3
    ensures InhabitsMember(defs, depth, v, PROBLEM_SUPPLEMENT.members[i])
    decreases depth, 6
  {
    if i == 0 {
      var code :| code in s.properties.entries && IsCode(code);
      CodeSound(defs, depth, v, s, code);
    } else if i == 1 {
      var message :| message in s.properties.entries && IsMessage(message);
      MessageSound(defs, depth, v, s, message);
    } else {
      var diagnostics :| diagnostics in s.properties.entries && IsDiagnostics(diagnostics);
      DiagnosticsSound(defs, depth, v, s, diagnostics);
    }
  }

  lemma {:induction false} ThreeMembers(defs: Definitions, depth: nat, v: Json)
    requires IsRecord(v)
    requires forall i | 0 <= i < 3 :: InhabitsMember(defs, depth, v, PROBLEM_SUPPLEMENT.members[i])
    ensures InhabitsDeclaration(defs, depth, v, PROBLEM_SUPPLEMENT)
  {
    assert |PROBLEM_SUPPLEMENT.members| == 3;
  }

  lemma {:induction false} OneKind(v: Json, s: Schema)
    requires s.Keywords? && s.kind.One? && HasType(v, s.kind)
    ensures MatchesType(v, s.kind.name)
  {
  }

  // An accepted field of a record, one level further down.
  lemma {:induction false} FieldAccepted(defs: Definitions, depth: nat, v: Json, s: Schema, p: Property)
    requires s.Keywords? && s.ref.None? && s.properties.Table? && p in s.properties.entries
    requires Accepts(defs, depth, v, s) && IsRecord(v) && Lookup(v, p.name).Some?
    ensures depth > 0 && Accepts(defs, depth - 1, Lookup(v, p.name).value, p.schema)
  {
    var i :| 0 <= i < |s.properties.entries| && s.properties.entries[i] == p;
    assert Properties(s)[i] == p;
  }

  // A reference is sound when the definition that it names is.
  lemma {:induction false} ReferenceSound(defs: Definitions, depth: nat, v: Json, s: Schema, name: string)
    requires GoodDefinitions(defs) && RefersTo(s, name) && Accepts(defs, depth, v, s)
    ensures InhabitsText(defs, depth, v, [Atom(Name(name))])
    decreases depth, 7
  {
    DeclarationSound(defs, depth - 1, v, name);
    SingleAtom(defs, depth, v, Name(name));
  }

  lemma {:induction false} CodeSound(defs: Definitions, depth: nat, v: Json, s: Schema, p: Property)
    requires GoodDefinitions(defs) && s.Keywords? && s.ref.None? && s.properties.Table? && "code" in s.required
    requires p in s.properties.entries && IsCode(p) && Accepts(defs, depth, v, s) && IsRecord(v)
    ensures InhabitsMember(defs, depth, v, PROBLEM_SUPPLEMENT.members[0])
    decreases depth, 5
  {
    assert Lookup(v, "code").Some?;
    FieldAccepted(defs, depth, v, s, p);
    var code := Lookup(v, "code").value;
    ReferenceSound(defs, depth - 1, code, p.schema, "ProblemCode");
    CodeMember(defs, depth, v, code);
  }

  lemma {:induction false} CodeMember(defs: Definitions, depth: nat, v: Json, code: Json)
    requires IsRecord(v) && Lookup(v, "code") == Some(code) && depth > 0
    requires InhabitsText(defs, depth - 1, code, [Atom(Name("ProblemCode"))])
    ensures InhabitsMember(defs, depth, v, PROBLEM_SUPPLEMENT.members[0])
  {
    TextMonotone(defs, depth - 1, code, [Atom(Name("ProblemCode"))]);
    var rest: seq<Token> := [Atom(Quoted("invalid_response")), Or, Atom(Quoted("network_error"))];
    UnionHolds(defs, depth, code, [Atom(Name("ProblemCode"))], rest);
    assert PROBLEM_SUPPLEMENT.members[0].text == [Atom(Name("ProblemCode"))] + ([Or] + rest);
    SupplementNames();
  }

  lemma {:induction false} MessageSound(defs: Definitions, depth: nat, v: Json, s: Schema, p: Property)
    requires s.Keywords? && s.ref.None? && s.properties.Table? && "message" in s.required
    requires p in s.properties.entries && IsMessage(p) && Accepts(defs, depth, v, s) && IsRecord(v)
    ensures InhabitsMember(defs, depth, v, PROBLEM_SUPPLEMENT.members[1])
  {
    assert Lookup(v, "message").Some?;
    FieldAccepted(defs, depth, v, s, p);
    OneKind(Lookup(v, "message").value, p.schema);
    SingleAtom(defs, depth, Lookup(v, "message").value, StringType);
    SupplementNames();
  }

  lemma {:induction false} DiagnosticsSound(defs: Definitions, depth: nat, v: Json, s: Schema, p: Property)
    requires GoodDefinitions(defs) && s.Keywords? && s.ref.None? && s.properties.Table?
    requires p in s.properties.entries && IsDiagnostics(p) && Accepts(defs, depth, v, s) && IsRecord(v)
    ensures InhabitsMember(defs, depth, v, PROBLEM_SUPPLEMENT.members[2])
    decreases depth, 5
  {
    if Lookup(v, "diagnostics").Some? {
      FieldAccepted(defs, depth, v, s, p);
      DiagnosticListSound(defs, depth - 1, Lookup(v, "diagnostics").value, p.schema);
    }
    DiagnosticsMember(defs, depth, v);
  }

  lemma {:induction false} DiagnosticsMember(defs: Definitions, depth: nat, v: Json)
    requires IsRecord(v)
    requires Lookup(v, "diagnostics").Some? ==>
               && depth > 0
               && InhabitsText(defs, depth - 1, Lookup(v, "diagnostics").value,
                               [Atom(ArrayOf([Atom(Name("NoteDiagnostic"))]))])
    ensures InhabitsMember(defs, depth, v, PROBLEM_SUPPLEMENT.members[2])
  {
    SupplementNames();
    OptionalMember(defs, depth, v, PROBLEM_SUPPLEMENT.members[2]);
  }

  lemma {:induction false} SupplementNames()
    ensures ReadMemberName("code") == Some("code")
    ensures ReadMemberName("message") == Some("message")
    ensures ReadMemberName("diagnostics") == Some("diagnostics")
  {
  }

  lemma {:induction false} OptionalMember(defs: Definitions, depth: nat, v: Json, m: Member)
    requires IsRecord(v) && ReadMemberName(m.printed) == Some(m.printed) && m.optional
    requires Lookup(v, m.printed).Some?
       ==> depth > 0 && InhabitsText(defs, depth - 1, Lookup(v, m.printed).value, m.text)
    ensures InhabitsMember(defs, depth, v, m)
  {
    if Lookup(v, m.printed).Some? {
      TextMonotone(defs, depth - 1, Lookup(v, m.printed).value, m.text);
    }
  }

  lemma {:induction false} DiagnosticListSound(defs: Definitions, depth: nat, list: Json, s: Schema)
    requires GoodDefinitions(defs) && s.Keywords? && s.ref.None? && s.kind == One("array")
    requires s.items.Some? && RefersTo(s.items.value, "NoteDiagnostic") && Accepts(defs, depth, list, s)
    ensures InhabitsText(defs, depth, list, [Atom(ArrayOf([Atom(Name("NoteDiagnostic"))]))])
    decreases depth, 8
  {
    OneKind(list, s);
    forall i | 0 <= i < |list.items|
      ensures InhabitsText(defs, depth - 1, list.items[i], [Atom(Name("NoteDiagnostic"))])
    {
      ReferenceSound(defs, depth - 1, list.items[i], s.items.value, "NoteDiagnostic");
    }
    SingleAtom(defs, depth, list, ArrayOf([Atom(Name("NoteDiagnostic"))]));
  }
}
