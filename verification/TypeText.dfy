// The TypeScript type text generated from a schema: `type_declaration`, `object_members`,
// `type_expression`, `object_type_expression` and `single_type_expression`
// (crates/marginalis-contract/src/typescript.rs).
module TypeText {
  import opened JsonValues
  import opened Numerals
  import opened Options
  import opened Sequences

  // Type text as tokens. `Or` and `And` are " | " and " & ".
  datatype Token = Atom(atom: TypeAtom) | And | Or

  datatype TypeAtom =
    | UnknownType
    | NeverType
    | StringType
    | NumberType
    | BooleanType
    | NullType
    | AnyRecord                          // Record<string, unknown>
    | Name(name: string)
    | Quoted(text: string)               // the characters between double quotes
    | Constant(value: Json)              // JSON text of a value that is no string
    | ArrayOf(element: seq<Token>)
    | Members(members: seq<Member>)

  // `printed` is the name before member_name decides about quotes.
  datatype Member = Member(printed: string, optional: bool, text: seq<Token>)

  datatype Declaration = Interface(members: seq<Member>) | Alias(text: seq<Token>)

  // ---------------------------------------------------------------- printing

  predicate ConstantHasSpace(value: Json) {
    match value
    case Str(s) => ' ' in s
    case Arr(items) => exists i | 0 <= i < |items| :: ConstantHasSpace(items[i])
    case Obj(fields) => exists i | 0 <= i < |fields| :: ' ' in fields[i].name || ConstantHasSpace(fields[i].value)
    case _ => false
  }

  // items.contains(' ')
  predicate HasSpace(text: seq<Token>)
    decreases text
  {
    |text| > 1 || (|text| == 1 && TokenHasSpace(text[0]))
  }

  predicate TokenHasSpace(token: Token)
    decreases token
  {
    token.Atom? && AtomHasSpace(token.atom)
  }

  predicate AtomHasSpace(atom: TypeAtom)
    decreases atom
  {
    match atom
    case Name(name) => ' ' in name
    case Quoted(text) => ' ' in text
    case Constant(value) => ConstantHasSpace(value)
    case ArrayOf(element) => HasSpace(element)
    case AnyRecord => true
    case Members(_) => true
    case _ => false
  }

  // Without parentheses the brackets bind to the last atom of the text.
  function ArrayText(element: seq<Token>): seq<Token> {
    if HasSpace(element) || element == [] then [Atom(ArrayOf(element))]
    else element[..|element| - 1] + [Atom(ArrayOf([element[|element| - 1]]))]
  }

  function LiteralText(value: Json): seq<Token> {
    [Atom(if value.Str? then Quoted(value.s) else Constant(value))]
  }

  function LiteralUnion(values: seq<Json>): seq<Token> {
    if values == [] then []
    else LiteralText(values[0]) + if |values| == 1 then [] else [Or] + LiteralUnion(values[1..])
  }

  function TypeExpression(s: Schema): seq<Token>
    decreases s, 1
  {
    match s
    case Always => [Atom(UnknownType)]
    case Never => [Atom(NeverType)]
    case Other => [Atom(UnknownType)]
    case Keywords(_, _, _, _, _, _, _, _, _, _, _, _) => ObjectTypeExpression(s)
  }

  function ObjectTypeExpression(s: Schema): seq<Token>
    requires s.Keywords?
    decreases s, 0
  {
    if s.ref.Some? then [Atom(Name(LastSegment(s.ref.value)))]
    else if s.constant.Some? then LiteralText(s.constant.value)
    else if s.enumeration.Some? then LiteralUnion(s.enumeration.value)
    else if s.allOf.List? then
      Joined(s.allOf.members, And)
      + if s.properties.Table? then [And, Atom(Members(ObjectMembers(s.properties.entries, s.required)))] else []
    else if s.oneOf.List? then Joined(s.oneOf.members, Or)
    else if s.anyOf.List? then Joined(s.anyOf.members, Or)
    else if TypeNames(s.kind) == [] then [Atom(UnknownType)]
    else
      var arrayText := if s.items.Some? then ArrayText(TypeExpression(s.items.value))
          else [Atom(ArrayOf([Atom(UnknownType)]))];
      var objectAtom := if s.properties.Table? then Members(ObjectMembers(s.properties.entries, s.required))
          else AnyRecord;
      KindUnion(TypeNames(s.kind), arrayText, objectAtom)
  }

  function Joined(members: seq<Schema>, separator: Token): seq<Token>
    decreases members, 0
  {
    if members == [] then []
    else TypeExpression(members[0]) + if |members| == 1 then [] else [separator] + Joined(members[1..], separator)
  }

  function ObjectMembers(properties: seq<Property>, required: seq<string>): seq<Member>
    decreases properties, 0
  {
    if properties == [] then []
    else
      [Member(properties[0].name, properties[0].name !in required, TypeExpression(properties[0].schema))]
      + ObjectMembers(properties[1..], required)
  }

  // One type name, given the text for arrays and the atom for objects.
  function SingleType(name: string, arrayText: seq<Token>, objectAtom: TypeAtom): seq<Token> {
    if name == "string" then [Atom(StringType)]
    else if name == "integer" || name == "number" then [Atom(NumberType)]
    else if name == "boolean" then [Atom(BooleanType)]
    else if name == "null" then [Atom(NullType)]
    else if name == "array" then arrayText
    else if name == "object" then [Atom(objectAtom)]
    else [Atom(UnknownType)]
  }

  function KindUnion(names: seq<string>, arrayText: seq<Token>, objectAtom: TypeAtom): seq<Token> {
    if names == [] then []
    else
      SingleType(names[0], arrayText, objectAtom)
      + if |names| == 1 then [] else [Or] + KindUnion(names[1..], arrayText, objectAtom)
  }

  predicate IsPlainObject(s: Schema) {
    s.Keywords? && s.kind == One("object") && s.properties.Table? && s.oneOf.NoList? && s.anyOf.NoList?
        && s.allOf.NoList?
  }

  // The hand-written declaration that replaces the generated one for Problem.
  const PROBLEM_SUPPLEMENT := Interface([
    Member("code", false,
           [Atom(Name("ProblemCode")), Or, Atom(Quoted("invalid_response")), Or, Atom(Quoted("network_error"))]),
    Member("message", false, [Atom(StringType)]),
    Member("diagnostics", true, [Atom(ArrayOf([Atom(Name("NoteDiagnostic"))]))])])

  function DeclarationOf(defs: Definitions, name: string): Declaration
    requires name in defs
  {
    if name == "Problem" then PROBLEM_SUPPLEMENT
    else if IsPlainObject(defs[name]) then Interface(ObjectMembers(defs[name].properties.entries, defs[name].required))
    else Alias(TypeExpression(defs[name]))
  }

  // The loop that prints the members.
  method PrintMembers(properties: seq<Property>, required: seq<string>) returns (output: seq<Member>)
    ensures output == ObjectMembers(properties, required)
  {
    output := [];
    for i := 0 to |properties|
      invariant ObjectMembers(properties, required) == output + ObjectMembers(properties[i..], required)
    {
      var property := properties[i];
      var member := Member(property.name, property.name !in required, TypeExpression(property.schema));
      assert properties[i..][1..] == properties[i + 1..];
      Assoc3(output, [member], ObjectMembers(properties[i + 1..], required));
      output := output + [member];
    }
  }

  // ---------------------------------------------------------------- reading string literals

  function HexValue(digits: string): Option<nat> {
    if digits == "" then Some(0)
    else
      var high, low := HexValue(digits[..|digits| - 1]), DigitValue(digits[|digits| - 1]);
      if high.Some? && low.Some? then Some(16 * high.value + low.value) else None
  }

  // The character with this code, when it is a scalar value.
  function Character(code: Option<nat>): Option<string> {
    if code.Some? && (code.value < 0xD800 || 0xE000 <= code.value < 0x11_0000) then Some([code.value as char]) else None
  }

  // An escape sequence without its backslash: the text it stands for and its length.
  function EscapeSequence(rest: string): (r: Option<(string, nat)>)
    ensures r.Some? ==> |r.value.0| <= 1 <= r.value.1 <= |rest|
  {
    if rest == "" then None
    else if rest[0] == 'x' then
      if |rest| < 3 then None
      else var c := Character(HexValue(rest[1..3])); if c.Some? then Some((c.value, 3)) else None
    else if rest[0] == 'u' then
      if |rest| < 5 then None
      else var c := Character(HexValue(rest[1..5])); if c.Some? then Some((c.value, 5)) else None
    else if rest[0] == '\n' || rest[0] == '\r' then Some(("", 1))
    else Some(([if rest[0] == 'n' then '\n' else if rest[0] == 't' then '\t' else if rest[0] == 'r' then '\r'
                else if rest[0] == 'b' then 8 as char else if rest[0] == 'v' then 11 as char
                else if rest[0] == 'f' then 12 as char else if rest[0] == '0' then '\0' else rest[0]], 1))
  }

  // What a string literal means whose characters between the quotes are these; None when they do
  // not form one literal. Escapes with braces and surrogate pairs written as two escapes are not read.
  function ReadQuoted(text: string): Option<string>
    decreases |text|
  {
    if text == "" then Some("")
    else if text[0] == '"' || text[0] == '\n' || text[0] == '\r' then None
    else if text[0] == '\\' then
      var escape := EscapeSequence(text[1..]);
      if escape.None? then None
      else
        var rest := ReadQuoted(text[1..][escape.value.1..]);
        if rest.None? then None else Some(escape.value.0 + rest.value)
    else
      var rest := ReadQuoted(text[1..]);
      if rest.None? then None else Some([text[0]] + rest.value)
  }

  predicate IsPlainText(text: string) {
    forall i | 0 <= i < |text| :: text[i] != '"' && text[i] != '\\' && text[i] != '\n' && text[i] != '\r'
  }

  lemma {:induction false} ReadQuotedShrinks(text: string)
    ensures ReadQuoted(text).Some? ==> |ReadQuoted(text).value| <= |text|
    ensures ReadQuoted(text).Some? && !IsPlainText(text) ==> |ReadQuoted(text).value| < |text|
    decreases |text|
  {
    if text != "" && ReadQuoted(text).Some? {
      if text[0] == '\\' {
        ReadQuotedShrinks(text[1..][EscapeSequence(text[1..]).value.1..]);
      } else {
        ReadQuotedShrinks(text[1..]);
        if !IsPlainText(text) {
          var i :| 0 <= i < |text| && !(text[i] != '"' && text[i] != '\\' && text[i] != '\n' && text[i] != '\r');
          assert text[1..][i - 1] == text[i];
        }
      }
    }
  }

  // Printing a string between quotes as it is means that string exactly when it contains neither
  // quotes nor backslashes nor line breaks.
  lemma {:induction false} QuotedTextMeansItself(text: string)
    ensures ReadQuoted(text) == Some(text) <==> IsPlainText(text)
    decreases |text|
  {
    ReadQuotedShrinks(text);
    if IsPlainText(text) && text != "" {
      QuotedTextMeansItself(text[1..]);
      assert text == [text[0]] + text[1..];
    }
  }

  predicate IsIdentifier(name: string) {
    && (forall i | 0 <= i < |name| ::
          'a' <= name[i] <= 'z' || 'A' <= name[i] <= 'Z' || '0' <= name[i] <= '9' || name[i] == '_' || name[i] == '$')
    && !(name != "" && '0' <= name[0] <= '9')
  }

  // The property that a printed member name denotes: identifiers stand for themselves, other names
  // are quoted. The empty name passes for an identifier and prints nothing.
  function ReadMemberName(printed: string): Option<string> {
    if printed == "" then None
    else if IsIdentifier(printed) then Some(printed)
    else ReadQuoted(printed)
  }

  // ---------------------------------------------------------------- reading unions and intersections

  // The text cut at " | ", each part cut at " & ": intersection binds tighter than union.
  function Segments(text: seq<Token>): (segments: seq<seq<TypeAtom>>)
    ensures segments != []
  {
    if text == [] then [[]]
    else
      var rest := Segments(text[1..]);
      match text[0]
      case Atom(a) => [[a] + rest[0]] + rest[1..]
      case And => rest
      case Or => [[]] + rest
  }

  // Where two texts meet, the last part of the one goes on in the first part of the other.
  function Glue(a: seq<seq<TypeAtom>>, b: seq<seq<TypeAtom>>): seq<seq<TypeAtom>>
    requires a != [] && b != []
  {
    a[..|a| - 1] + [a[|a| - 1] + b[0]] + b[1..]
  }

  lemma {:induction false} SegmentsOfConcatenation(x: seq<Token>, y: seq<Token>)
    ensures Segments(x + y) == Glue(Segments(x), Segments(y))
  {
    if x == [] {
      assert x + y == y;
      assert [] + Segments(y)[0] == Segments(y)[0];
    } else {
      assert (x + y)[1..] == x[1..] + y;
      SegmentsOfConcatenation(x[1..], y);
      GlueFirst(x[0], Segments(x[1..]), Segments(y));
    }
  }

  lemma {:induction false} GlueFirst(token: Token, a: seq<seq<TypeAtom>>, b: seq<seq<TypeAtom>>)
    requires a != [] && b != []
    ensures token.Or? ==> [[]] + Glue(a, b) == Glue([[]] + a, b)
    ensures token.Atom? ==>
              [[token.atom] + Glue(a, b)[0]] + Glue(a, b)[1..] == Glue([[token.atom] + a[0]] + a[1..], b)
  {
    if token.Atom? && |a| == 1 {
      assert [token.atom] + (a[0] + b[0]) == [token.atom] + a[0] + b[0];
    }
  }
}
