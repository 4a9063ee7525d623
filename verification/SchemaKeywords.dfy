// What each keyword of a schema demands of a value, and that the emitted validator demands exactly what the
// keywords do one by one (`assertValid` in crates/marginalis-contract/src/typescript.rs).
module SchemaKeywords {
  import opened JsonValues
  import opened Options
  import opened SchemaValidator

  // ---------------------------------------------------------------- keywords are independent

  datatype Keyword =
    | AllOf | Alternative | Type | Const | Enum
    | MinLength | MaxLength | Pattern | Minimum | Maximum | MinItems | MaxItems
    | Items | Required | PropertiesAndClosed

  // The schema with one of its keywords only; properties are kept with the prohibition of others.
  function Only(s: Schema, keyword: Keyword): Schema
    requires s.Keywords?
  {
    match keyword
    case AllOf => BLANK.(allOf := s.allOf)
    case Alternative => BLANK.(oneOf := s.oneOf, anyOf := s.anyOf)
    case Type => BLANK.(kind := s.kind)
    case Const => BLANK.(constant := s.constant)
    case Enum => BLANK.(enumeration := s.enumeration)
    case Items => BLANK.(items := s.items)
    case Required => BLANK.(required := s.required)
    case PropertiesAndClosed => BLANK.(properties := s.properties, closed := s.closed)
    case _ => BLANK.(limits := OnlyLimit(s.limits, keyword))
  }

  function OnlyLimit(l: Limits, keyword: Keyword): Limits {
    match keyword
    case MinLength => NO_LIMITS.(minLength := l.minLength)
    case MaxLength => NO_LIMITS.(maxLength := l.maxLength)
    case Pattern => NO_LIMITS.(pattern := l.pattern)
    case Minimum => NO_LIMITS.(minimum := l.minimum)
    case Maximum => NO_LIMITS.(maximum := l.maximum)
    case MinItems => NO_LIMITS.(minItems := l.minItems)
    case MaxItems => NO_LIMITS.(maxItems := l.maxItems)
    case _ => NO_LIMITS
  }

  lemma {:induction false} OwnChecksSuffice(defs: Definitions, depth: nat, v: Json, s: Schema)
    requires s.Keywords? && s.ref.None? && s.allOf.NoList? && s.oneOf.NoList? && s.anyOf.NoList? && s.items.None?
    requires s.properties.NoTable? && depth > 0
    ensures Accepts(defs, depth, v, s) <==> OwnChecks(v, s)
  {
  }

  lemma {:induction false} LimitAlone(defs: Definitions, depth: nat, v: Json, l: Limits)
    requires depth > 0
    ensures Accepts(defs, depth, v, BLANK.(limits := l)) <==> WithinLimits(v, l)
  {
    OwnChecksSuffice(defs, depth, v, BLANK.(limits := l));
  }

  // What one keyword demands, with the schemas inside it one level further down.
  predicate Demands(defs: Definitions, depth: nat, v: Json, s: Schema, keyword: Keyword)
    requires s.Keywords?
  {
    match keyword
    case AllOf => s.allOf.List? ==>
        forall i | 0 <= i < |s.allOf.members| :: Accepts(defs, depth, v, s.allOf.members[i])
    case Alternative => Alternatives(s).List? ==>
        exists i | 0 <= i < |Alternatives(s).members| :: Accepts(defs, depth, v, Alternatives(s).members[i])
    case Type => HasType(v, s.kind)
    case Const => s.constant.Some? ==> SameText(v, s.constant.value)
    case Enum => s.enumeration.Some? ==>
        exists i | 0 <= i < |s.enumeration.value| :: SameText(v, s.enumeration.value[i])
    case Items => v.Arr? && s.items.Some? ==>
        forall i | 0 <= i < |v.items| :: Accepts(defs, depth, v.items[i], s.items.value)
    case Required => IsRecord(v) ==> HasRequired(v, s.required)
    case PropertiesAndClosed => IsRecord(v) ==>
        && (s.closed && s.properties.Table? ==> OnlyKnown(v, Properties(s)))
        && forall i | 0 <= i < |Properties(s)| && Lookup(v, Properties(s)[i].name).Some? ::
             Accepts(defs, depth, Lookup(v, Properties(s)[i].name).value, Properties(s)[i].schema)
    case _ => WithinLimits(v, OnlyLimit(s.limits, keyword))
  }

  lemma {:induction false} AloneItDemands(defs: Definitions, depth: nat, v: Json, s: Schema, keyword: Keyword)
    requires s.Keywords?
    ensures Accepts(defs, depth + 1, v, Only(s, keyword)) <==> Demands(defs, depth, v, s, keyword)
  {
    var alone := Only(s, keyword);
    match keyword
    case AllOf =>
    case Alternative => assert Alternatives(alone) == Alternatives(s);
    case Items =>
    case PropertiesAndClosed => assert Properties(alone) == Properties(s);
    case _ => OwnChecksSuffice(defs, depth + 1, v, alone);
  }

  lemma {:induction false} LimitsDemanded(v: Json, l: Limits)
    requires forall keyword :: WithinLimits(v, OnlyLimit(l, keyword))
    ensures WithinLimits(v, l)
  {
    assert WithinLimits(v, OnlyLimit(l, MinLength)) && WithinLimits(v, OnlyLimit(l, MaxLength));
    assert WithinLimits(v, OnlyLimit(l, Pattern)) && WithinLimits(v, OnlyLimit(l, Minimum));
    assert WithinLimits(v, OnlyLimit(l, Maximum)) && WithinLimits(v, OnlyLimit(l, MinItems));
    assert WithinLimits(v, OnlyLimit(l, MaxItems));
  }

  lemma {:induction false} OwnChecksDemanded(defs: Definitions, depth: nat, v: Json, s: Schema)
    requires s.Keywords? && forall keyword :: Demands(defs, depth, v, s, keyword)
    ensures OwnChecks(v, s)
  {
    forall keyword
      ensures WithinLimits(v, OnlyLimit(s.limits, keyword))
    {
      assert Demands(defs, depth, v, s, keyword);
    }
    LimitsDemanded(v, s.limits);
    assert Demands(defs, depth, v, s, Type) && Demands(defs, depth, v, s, Const) && Demands(defs, depth, v, s, Enum);
    assert Demands(defs, depth, v, s, Required) && Demands(defs, depth, v, s, PropertiesAndClosed);
  }

  lemma {:induction false} AllDemanded(defs: Definitions, depth: nat, v: Json, s: Schema)
    requires s.Keywords? && s.ref.None? && forall keyword :: Demands(defs, depth, v, s, keyword)
    ensures Accepts(defs, depth + 1, v, s)
  {
    OwnChecksDemanded(defs, depth, v, s);
    assert Demands(defs, depth, v, s, AllOf) && Demands(defs, depth, v, s, Alternative);
    assert Demands(defs, depth, v, s, Items) && Demands(defs, depth, v, s, PropertiesAndClosed);
  }

  // Without a reference the validator accepts exactly what it accepts under each keyword alone.
  lemma {:induction false} KeywordsAreIndependent(defs: Definitions, depth: nat, v: Json, s: Schema)
    requires s.Keywords? && s.ref.None?
    ensures Accepts(defs, depth, v, s) <==> forall keyword :: Accepts(defs, depth, v, Only(s, keyword))
  {
    if depth == 0 {
      assert !Accepts(defs, depth, v, Only(s, Type));
    } else {
      var below: nat := depth - 1;
      forall keyword
        ensures Accepts(defs, depth, v, Only(s, keyword)) <==> Demands(defs, below, v, s, keyword)
      {
        AloneItDemands(defs, below, v, s, keyword);
      }
      DemandsDecide(defs, below, v, s);
    }
  }

  lemma {:induction false} DemandsDecide(defs: Definitions, depth: nat, v: Json, s: Schema)
    requires s.Keywords? && s.ref.None?
    ensures Accepts(defs, depth + 1, v, s) <==> forall keyword :: Demands(defs, depth, v, s, keyword)
  {
    if Accepts(defs, depth + 1, v, s) {
      forall keyword
        ensures Demands(defs, depth, v, s, keyword)
      {
      }
    } else if forall keyword :: Demands(defs, depth, v, s, keyword) {
      AllDemanded(defs, depth, v, s);
    }
  }

  // ---------------------------------------------------------------- limits

  // A minimum is the least accepted number, a maximum the greatest; neither looks at other values.
  lemma {:induction false} NumberLimitsMean(defs: Definitions, v: Json, n: real)
    ensures Accepts(defs, 1, v, BLANK.(limits := NO_LIMITS.(minimum := Some(n)))) <==> (v.Number? ==> v.n >= n)
    ensures Accepts(defs, 1, v, BLANK.(limits := NO_LIMITS.(maximum := Some(n)))) <==> (v.Number? ==> v.n <= n)
  {
    LimitAlone(defs, 1, v, NO_LIMITS.(minimum := Some(n)));
    LimitAlone(defs, 1, v, NO_LIMITS.(maximum := Some(n)));
  }

  lemma {:induction false} LengthLimitsMean(defs: Definitions, v: Json, n: nat)
    ensures Accepts(defs, 1, v, BLANK.(limits := NO_LIMITS.(minLength := Some(n as real))))
            <==> (v.Str? ==> |v.s| >= n)
    ensures Accepts(defs, 1, v, BLANK.(limits := NO_LIMITS.(maxLength := Some(n as real))))
            <==> (v.Str? ==> |v.s| <= n)
  {
    LimitAlone(defs, 1, v, NO_LIMITS.(minLength := Some(n as real)));
    LimitAlone(defs, 1, v, NO_LIMITS.(maxLength := Some(n as real)));
  }

  lemma {:induction false} ItemLimitsMean(defs: Definitions, v: Json, n: nat)
    ensures Accepts(defs, 1, v, BLANK.(limits := NO_LIMITS.(minItems := Some(n as real))))
            <==> (v.Arr? ==> |v.items| >= n)
    ensures Accepts(defs, 1, v, BLANK.(limits := NO_LIMITS.(maxItems := Some(n as real))))
            <==> (v.Arr? ==> |v.items| <= n)
  {
    LimitAlone(defs, 1, v, NO_LIMITS.(minItems := Some(n as real)));
    LimitAlone(defs, 1, v, NO_LIMITS.(maxItems := Some(n as real)));
  }

  lemma {:induction false} PatternMeans(defs: Definitions, v: Json, matches: string -> bool)
    ensures Accepts(defs, 1, v, BLANK.(limits := NO_LIMITS.(pattern := Some(matches)))) <==> (v.Str? ==> matches(v.s))
  {
    LimitAlone(defs, 1, v, NO_LIMITS.(pattern := Some(matches)));
  }

  // ---------------------------------------------------------------- values and types

  lemma {:induction false} ConstantMeans(defs: Definitions, v: Json, constant: Json)
    requires !v.Inherited?
    ensures Accepts(defs, 1, v, BLANK.(constant := Some(constant))) <==> v == constant
  {
    OwnChecksSuffice(defs, 1, v, BLANK.(constant := Some(constant)));
  }

  lemma {:induction false} EnumerationMeans(defs: Definitions, v: Json, values: seq<Json>)
    requires !v.Inherited?
    ensures Accepts(defs, 1, v, BLANK.(enumeration := Some(values))) <==> v in values
  {
    OwnChecksSuffice(defs, 1, v, BLANK.(enumeration := Some(values)));
    assert forall i | 0 <= i < |values| :: SameText(v, values[i]) <==> v == values[i];
  }

  function OfType(name: string): Schema {
    BLANK.(kind := One(name))
  }

  lemma {:induction false} TypeAlone(defs: Definitions, v: Json, name: string)
    ensures Accepts(defs, 1, v, OfType(name)) <==> MatchesType(v, name)
  {
    OwnChecksSuffice(defs, 1, v, OfType(name));
    assert TypeNames(One(name)) == [name];
  }

  // What each type name admits. Integers are those that a browser represents exactly.
  lemma {:induction false} TypeNamesMean(defs: Definitions, v: Json)
    ensures Accepts(defs, 1, v, OfType("string")) <==> v.Str?
    ensures Accepts(defs, 1, v, OfType("number")) <==> v.Number?
    ensures Accepts(defs, 1, v, OfType("integer"))
            <==> v.Number? && v.n.Floor as real == v.n && -9007199254740991.0 <= v.n <= 9007199254740991.0
    ensures Accepts(defs, 1, v, OfType("boolean")) <==> v.Bool?
    ensures Accepts(defs, 1, v, OfType("null")) <==> v.Null?
    ensures Accepts(defs, 1, v, OfType("array")) <==> v.Arr?
    ensures Accepts(defs, 1, v, OfType("object")) <==> v.Obj? || v == Inherited("__proto__")
  {
    TypeAlone(defs, v, "string");
    TypeAlone(defs, v, "number");
    TypeAlone(defs, v, "integer");
    TypeAlone(defs, v, "boolean");
    TypeAlone(defs, v, "null");
    TypeAlone(defs, v, "array");
    TypeAlone(defs, v, "object");
  }

  // A list of types admits what one of them does.
  lemma {:induction false} TypeListMeans(defs: Definitions, v: Json, names: seq<string>)
    ensures Accepts(defs, 1, v, BLANK.(kind := Many(names)))
            <==> exists name | name in names :: Accepts(defs, 1, v, OfType(name))
  {
    OwnChecksSuffice(defs, 1, v, BLANK.(kind := Many(names)));
    forall name | name in names
      ensures Accepts(defs, 1, v, OfType(name)) <==> MatchesType(v, name)
    {
      TypeAlone(defs, v, name);
    }
  }

  // ---------------------------------------------------------------- records

  predicate HasOwn(fields: seq<Field>, name: string) {
    exists i | 0 <= i < |fields| :: fields[i].name == name
  }

  lemma {:induction false} OwnFieldFound(fields: seq<Field>, name: string)
    ensures OwnField(fields, name).Some? <==> HasOwn(fields, name)
  {
    if fields != [] {
      OwnFieldFound(fields[1..], name);
      if HasOwn(fields, name) && fields[0].name != name {
        var i :| 0 <= i < |fields| && fields[i].name == name;
        assert fields[1..][i - 1].name == name;
      }
    }
  }

  // Of an object whose names differ, each field is read under its name.
  lemma {:induction false} OwnFieldAt(fields: seq<Field>, i: nat)
    requires i < |fields| && forall j | 0 <= j < i :: fields[j].name != fields[i].name
    ensures OwnField(fields, fields[i].name) == Some(fields[i].value)
  {
    if i > 0 {
      OwnFieldAt(fields[1..], i - 1);
    }
  }

  // A required name is there when the object has it or inherits it.
  lemma {:induction false} RequiredMeans(defs: Definitions, v: Json, required: seq<string>)
    requires !v.Inherited?
    ensures Accepts(defs, 1, v, BLANK.(required := required))
            <==> (v.Obj? ==> forall name | name in required :: HasOwn(v.fields, name) || name in PROTOTYPE_MEMBERS)
  {
    OwnChecksSuffice(defs, 1, v, BLANK.(required := required));
    if v.Obj? {
      forall name | name in required
        ensures Lookup(v, name).Some? <==> HasOwn(v.fields, name) || name in PROTOTYPE_MEMBERS
      {
        OwnFieldFound(v.fields, name);
      }
    }
  }

  // A closed schema admits no field but its properties and names that every object inherits.
  lemma {:induction false} ClosedMeans(defs: Definitions, v: Json, properties: seq<Property>)
    requires !v.Inherited? && forall i | 0 <= i < |properties| :: properties[i].schema == Always
    ensures Accepts(defs, 2, v, BLANK.(properties := Table(properties), closed := true))
            <==> (v.Obj? ==>
                    forall i | 0 <= i < |v.fields| ::
                      || v.fields[i].name in PROTOTYPE_MEMBERS
                      || exists k | 0 <= k < |properties| :: properties[k].name == v.fields[i].name)
  {
    var s := BLANK.(properties := Table(properties), closed := true);
    AloneItDemands(defs, 1, v, s, PropertiesAndClosed);
    assert Only(s, PropertiesAndClosed) == s;
    if v.Obj? {
      assert forall i | 0 <= i < |v.fields| :: OwnNames(v)[i] == v.fields[i].name;
    }
  }

  // Each field of an object whose names differ is checked against the property of its name; inherited
  // members are checked against properties that the object does not have.
  lemma {:induction false} PropertiesMean(defs: Definitions, depth: nat, v: Json, properties: seq<Property>)
    requires v.Obj? && forall i, j | 0 <= i < j < |v.fields| :: v.fields[i].name != v.fields[j].name
    ensures Accepts(defs, depth + 1, v, BLANK.(properties := Table(properties)))
            <==> forall k | 0 <= k < |properties| :: PropertyHolds(defs, depth, v.fields, properties[k])
  {
    var s := BLANK.(properties := Table(properties));
    AloneItDemands(defs, depth, v, s, PropertiesAndClosed);
    assert Only(s, PropertiesAndClosed) == s && Properties(s) == properties;
    forall k | 0 <= k < |properties|
      ensures PropertyHolds(defs, depth, v.fields, properties[k])
              <==> (Lookup(v, properties[k].name).Some?
                    ==> Accepts(defs, depth, Lookup(v, properties[k].name).value, properties[k].schema))
    {
      PropertyIsLookedUp(defs, depth, v, properties[k]);
    }
  }

  predicate PropertyHolds(defs: Definitions, depth: nat, fields: seq<Field>, p: Property) {
    && (forall i | 0 <= i < |fields| && fields[i].name == p.name :: Accepts(defs, depth, fields[i].value, p.schema))
    && (p.name in PROTOTYPE_MEMBERS && !HasOwn(fields, p.name)
        ==> Accepts(defs, depth, Inherited(p.name), p.schema))
  }

  lemma {:induction false} PropertyIsLookedUp(defs: Definitions, depth: nat, v: Json, p: Property)
    requires v.Obj? && forall i, j | 0 <= i < j < |v.fields| :: v.fields[i].name != v.fields[j].name
    ensures PropertyHolds(defs, depth, v.fields, p)
            <==> (Lookup(v, p.name).Some? ==> Accepts(defs, depth, Lookup(v, p.name).value, p.schema))
  {
    OwnFieldFound(v.fields, p.name);
    forall i | 0 <= i < |v.fields| && v.fields[i].name == p.name
      ensures OwnField(v.fields, p.name) == Some(v.fields[i].value)
    {
      OwnFieldAt(v.fields, i);
    }
  }

  // ---------------------------------------------------------------- schemas inside schemas

  lemma {:induction false} ItemsMean(defs: Definitions, depth: nat, v: Json, items: Schema)
    ensures Accepts(defs, depth + 1, v, BLANK.(items := Some(items)))
            <==> (v.Arr? ==> forall i | 0 <= i < |v.items| :: Accepts(defs, depth, v.items[i], items))
  {
    var s := BLANK.(items := Some(items));
    AloneItDemands(defs, depth, v, s, Items);
    assert Only(s, Items) == s;
  }

  // An allOf demands each of its members, a oneOf or anyOf some; a oneOf hides an anyOf.
  lemma {:induction false} CombinationsMean(defs: Definitions, depth: nat, v: Json, members: seq<Schema>,
                                            hidden: SchemaList)
    ensures Accepts(defs, depth + 1, v, BLANK.(allOf := List(members)))
            <==> forall i | 0 <= i < |members| :: Accepts(defs, depth, v, members[i])
    ensures Accepts(defs, depth + 1, v, BLANK.(anyOf := List(members)))
            <==> exists i | 0 <= i < |members| :: Accepts(defs, depth, v, members[i])
    ensures Accepts(defs, depth + 1, v, BLANK.(oneOf := List(members), anyOf := hidden))
            <==> exists i | 0 <= i < |members| :: Accepts(defs, depth, v, members[i])
  {
    AloneItDemands(defs, depth, v, BLANK.(allOf := List(members)), AllOf);
    AloneItDemands(defs, depth, v, BLANK.(anyOf := List(members)), Alternative);
    AloneItDemands(defs, depth, v, BLANK.(oneOf := List(members), anyOf := hidden), Alternative);
  }

  // The schema `false` rejects everything; `true`, and what is no schema, accept everything.
  lemma {:induction false} SchemasWithoutKeywords(defs: Definitions, depth: nat, v: Json)
    ensures Accepts(defs, depth + 1, v, Always) && Accepts(defs, depth + 1, v, Other)
    ensures !Accepts(defs, depth + 1, v, Never)
  {
  }

  lemma {:induction false} LastSegmentMeans(path: string, name: string)
    requires '/' !in name
    ensures LastSegment(name) == name && LastSegment(path + "/" + name) == name
  {
    assert name != "" ==> name[0] in name && '/' !in name[1..];
    if path == "" {
      assert path + "/" + name == "/" + name && ("/" + name)[1..] == name;
    } else {
      LastSegmentMeans(path[1..], name);
      var text := path + "/" + name;
      assert text[1..] == path[1..] + "/" + name;
      assert text[1..][|path| - 1] == '/';
    }
  }

  // A reference hides all other keywords; its last part names the schema that counts.
  lemma {:induction false} ReferenceMeans(defs: Definitions, depth: nat, v: Json, s: Schema, path: string, name: string)
    requires s.Keywords? && s.ref == Some(path + "/" + name) && '/' !in name
    ensures Accepts(defs, depth + 1, v, s) <==> name in defs && Accepts(defs, depth, v, defs[name])
  {
    LastSegmentMeans(path, name);
  }
}
