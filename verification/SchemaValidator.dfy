// The validator that is emitted beside the generated types: `resolveSchema`, `matchesType`, `isValid`
// and `assertValid` (crates/marginalis-contract/src/typescript.rs).
module SchemaValidator {
  import opened JsonValues

  const MAX_SAFE_INTEGER := 9007199254740991.0

  predicate MatchesType(v: Json, name: string) {
    if name == "object" then IsRecord(v)
    else if name == "array" then v.Arr?
    else if name == "string" then v.Str?
    else if name == "integer" then
      v.Number? && v.n == v.n.Floor as real && -MAX_SAFE_INTEGER <= v.n <= MAX_SAFE_INTEGER
    else if name == "number" then v.Number?
    else if name == "boolean" then v.Bool?
    else if name == "null" then v.Null?
    else true
  }

  predicate WithinLimits(v: Json, l: Limits) {
    && (v.Str? ==>
          && (l.minLength.Some? ==> |v.s| as real >= l.minLength.value)
          && (l.maxLength.Some? ==> |v.s| as real <= l.maxLength.value)
          && (l.pattern.Some? ==> l.pattern.value(v.s)))
    && (v.Number? ==>
          && (l.minimum.Some? ==> v.n >= l.minimum.value)
          && (l.maximum.Some? ==> v.n <= l.maximum.value))
    && (v.Arr? ==>
          && (l.minItems.Some? ==> |v.items| as real >= l.minItems.value)
          && (l.maxItems.Some? ==> |v.items| as real <= l.maxItems.value))
  }

  predicate HasType(v: Json, kind: TypeKeyword) {
    kind.NoType? || exists name | name in TypeNames(kind) :: MatchesType(v, name)
  }

  predicate HasRequired(v: Json, required: seq<string>)
    requires IsRecord(v)
  {
    forall name | name in required :: Lookup(v, name).Some?
  }

  // Every own name is a property, or is inherited by the object of the properties.
  predicate OnlyKnown(v: Json, properties: seq<Property>)
    requires IsRecord(v)
  {
    forall name | name in OwnNames(v) ::
      name in PROTOTYPE_MEMBERS || exists i | 0 <= i < |properties| :: properties[i].name == name
  }

  function Properties(s: Schema): seq<Property>
    requires s.Keywords?
  {
    if s.properties.Table? then s.properties.entries else []
  }

  // The checks that look at no other schema.
  predicate OwnChecks(v: Json, s: Schema)
    requires s.Keywords?
  {
    && HasType(v, s.kind)
    && (s.constant.Some? ==> SameText(v, s.constant.value))
    && (s.enumeration.Some? ==> exists i | 0 <= i < |s.enumeration.value| :: SameText(v, s.enumeration.value[i]))
    && WithinLimits(v, s.limits)
    && (IsRecord(v) ==>
          HasRequired(v, s.required) && (s.closed && s.properties.Table? ==> OnlyKnown(v, Properties(s))))
  }

  // assertValid returns without throwing, within a stack of `depth` calls.
  predicate Accepts(defs: Definitions, depth: nat, v: Json, s: Schema)
    decreases depth
  {
    depth > 0 &&
    match s
    case Always => true
    case Never => false
    case Other => true
    case Keywords(_, _, _, _, _, _, _, _, _, _, _, _) =>
      if s.ref.Some? then
        LastSegment(s.ref.value) in defs && Accepts(defs, depth - 1, v, defs[LastSegment(s.ref.value)])
      else
        && (s.allOf.List? ==> forall i | 0 <= i < |s.allOf.members| :: Accepts(defs, depth - 1, v, s.allOf.members[i]))
        && (Alternatives(s).List? ==>
              exists i | 0 <= i < |Alternatives(s).members| :: Accepts(defs, depth - 1, v, Alternatives(s).members[i]))
        && OwnChecks(v, s)
        && (v.Arr? && s.items.Some?
            ==> forall i | 0 <= i < |v.items| :: Accepts(defs, depth - 1, v.items[i], s.items.value))
        && (IsRecord(v) ==>
              forall i | 0 <= i < |Properties(s)| && Lookup(v, Properties(s)[i].name).Some? ::
                Accepts(defs, depth - 1, Lookup(v, Properties(s)[i].name).value, Properties(s)[i].schema))
  }

  // ---------------------------------------------------------------- the emitted code

  // `ok` says that the emitted function returns; a missing definition, a failed check and an
  // exhausted stack throw.
  method AssertValid(defs: Definitions, depth: nat, v: Json, raw: Schema) returns (ok: bool)
    ensures ok == Accepts(defs, depth, v, raw)
    decreases depth, 1
  {
    if depth == 0 || raw.Never? {
      return false;
    }
    if raw.Always? || raw.Other? {
      return true;
    }
    if raw.ref.Some? {
      var name := LastSegment(raw.ref.value);
      if name !in defs {
        return false;
      }
      ok := AssertValid(defs, depth - 1, v, defs[name]);
      return;
    }
    ok := AssertKeywords(defs, depth, v, raw);
  }

  method AssertKeywords(defs: Definitions, depth: nat, v: Json, s: Schema) returns (ok: bool)
    requires depth > 0 && s.Keywords? && s.ref.None?
    ensures ok == Accepts(defs, depth, v, s)
    decreases depth, 0
  {
    ok := AssertMembers(defs, depth - 1, v, s);
    if !ok {
      return;
    }
    ok := AssertOwn(v, s);
    if !ok {
      return;
    }
    ok := AssertParts(defs, depth - 1, v, s);
  }

  // allOf, and oneOf or anyOf.
  method AssertMembers(defs: Definitions, depth: nat, v: Json, s: Schema) returns (ok: bool)
    requires s.Keywords?
    ensures ok == (&& (s.allOf.List?
                       ==> forall i | 0 <= i < |s.allOf.members| :: Accepts(defs, depth, v, s.allOf.members[i]))
                   && (Alternatives(s).List? ==>
                         exists i | 0 <= i < |Alternatives(s).members| ::
                             Accepts(defs, depth, v, Alternatives(s).members[i])))
    decreases depth, 3
  {
    if s.allOf.List? {
      ok := AllValid(defs, depth, v, s.allOf.members);
      if !ok {
        return;
      }
    }
    if Alternatives(s).List? {
      ok := SomeValid(defs, depth, v, Alternatives(s).members);
      return;
    }
    ok := true;
  }

  // The items of an array and the properties of a record.
  method AssertParts(defs: Definitions, depth: nat, v: Json, s: Schema) returns (ok: bool)
    requires s.Keywords?
    ensures ok == (&& (v.Arr? && s.items.Some?
                       ==> forall i | 0 <= i < |v.items| :: Accepts(defs, depth, v.items[i], s.items.value))
                   && (IsRecord(v) ==>
                         forall i | 0 <= i < |Properties(s)| && Lookup(v, Properties(s)[i].name).Some? ::
                           Accepts(defs, depth, Lookup(v, Properties(s)[i].name).value, Properties(s)[i].schema)))
    decreases depth, 3
  {
    if v.Arr? && s.items.Some? {
      ok := ItemsValid(defs, depth, v.items, s.items.value);
      return;
    }
    if IsRecord(v) {
      ok := AssertProperties(defs, depth, v, Properties(s));
      return;
    }
    ok := true;
  }

  method AssertOwn(v: Json, s: Schema) returns (ok: bool)
    requires s.Keywords?
    ensures ok == OwnChecks(v, s)
  {
    if !HasType(v, s.kind) {
      return false;
    }
    if s.constant.Some? && !SameText(v, s.constant.value) {
      return false;
    }
    if s.enumeration.Some? && !exists i | 0 <= i < |s.enumeration.value| :: SameText(v, s.enumeration.value[i]) {
      return false;
    }
    if !WithinLimits(v, s.limits) {
      return false;
    }
    if IsRecord(v) {
      if !HasRequired(v, s.required) {
        return false;
      }
      if s.closed && s.properties.Table? && !OnlyKnown(v, Properties(s)) {
        return false;
      }
    }
    ok := true;
  }

  method AllValid(defs: Definitions, depth: nat, v: Json, members: seq<Schema>) returns (ok: bool)
    ensures ok == forall i | 0 <= i < |members| :: Accepts(defs, depth, v, members[i])
    decreases depth, 2
  {
    for i := 0 to |members|
      invariant forall j | 0 <= j < i :: Accepts(defs, depth, v, members[j])
    {
      ok := AssertValid(defs, depth, v, members[i]);
      if !ok {
        return;
      }
    }
    ok := true;
  }

  method ItemsValid(defs: Definitions, depth: nat, items: seq<Json>, schema: Schema) returns (ok: bool)
    ensures ok == forall i | 0 <= i < |items| :: Accepts(defs, depth, items[i], schema)
    decreases depth, 2
  {
    for i := 0 to |items|
      invariant forall j | 0 <= j < i :: Accepts(defs, depth, items[j], schema)
    {
      ok := AssertValid(defs, depth, items[i], schema);
      if !ok {
        return;
      }
    }
    ok := true;
  }

  // Array.prototype.some over isValid.
  method SomeValid(defs: Definitions, depth: nat, v: Json, members: seq<Schema>) returns (ok: bool)
    ensures ok == exists i | 0 <= i < |members| :: Accepts(defs, depth, v, members[i])
    decreases depth, 2
  {
    for i := 0 to |members|
      invariant forall j | 0 <= j < i :: !Accepts(defs, depth, v, members[j])
    {
      ok := AssertValid(defs, depth, v, members[i]);
      if ok {
        return;
      }
    }
    ok := false;
  }

  method AssertProperties(defs: Definitions, depth: nat, v: Json, properties: seq<Property>) returns (ok: bool)
    requires IsRecord(v)
    ensures ok == forall i | 0 <= i < |properties| && Lookup(v, properties[i].name).Some? ::
                    Accepts(defs, depth, Lookup(v, properties[i].name).value, properties[i].schema)
    decreases depth, 2
  {
    for i := 0 to |properties|
      invariant forall j | 0 <= j < i && Lookup(v, properties[j].name).Some? ::
                  Accepts(defs, depth, Lookup(v, properties[j].name).value, properties[j].schema)
    {
      var value := Lookup(v, properties[i].name);
      if value.Some? {
        ok := AssertValid(defs, depth, value.value, properties[i].schema);
        if !ok {
          return;
        }
      }
    }
    ok := true;
  }
}
