// The two validators of user-defined TeX macros: the server's
// (crates/marginalis-application/src/math_macros.rs), which scans UTF-8 bytes, and the browser's
// (frontend/src/mathMacroState.ts), which matches regular expressions against UTF-16 code units.
module MathMacros {
  import opened Unicode
  import opened TexTokens

  const MAX_MATH_MACROS := 64
  const MAX_NAME_CHARACTERS := 32
  const MAX_REPLACEMENT_CHARACTERS := 512
  const MAX_ARGUMENTS := 9
  const MAX_TOTAL_BYTES := 16 * 1024

  datatype MathMacro = MathMacro(name: string, replacement: string, argumentCount: Byte)

  function TotalBytes(macros: seq<MathMacro>): nat {
    if macros == [] then 0
    else |Utf8(macros[0].name)| + |Utf8(macros[0].replacement)| + TotalBytes(macros[1..])
  }

  predicate DistinctNames(macros: seq<MathMacro>) {
    forall i, j | 0 <= i < j < |macros| :: macros[i].name != macros[j].name
  }

  predicate Limited(macros: seq<MathMacro>) {
    |macros| <= MAX_MATH_MACROS && TotalBytes(macros) <= MAX_TOTAL_BYTES && DistinctNames(macros)
  }

  predicate HasControl(text: string) {
    exists i | 0 <= i < |text| :: IsControl(text[i])
  }

  // Every number sign is followed by the digit of one of the first `count` arguments. The same
  // definition reads code points, bytes and code units.
  predicate References(codes: seq<int>, count: nat) {
    if codes == [] then true
    else if codes[0] != 0x23 then References(codes[1..], count)
    else |codes| >= 2 && 0x31 <= codes[1] <= 0x30 + count && References(codes[2..], count)
  }

  // ---------------------------------------------------------------- the server

  predicate IsAsciiAlphabetic(b: int) {
    0x41 <= b <= 0x5A || 0x61 <= b <= 0x7A
  }

  predicate AllAlphabetic(codes: seq<int>) {
    codes == [] || (IsAsciiAlphabetic(codes[0]) && AllAlphabetic(codes[1..]))
  }

  predicate ServerStoredItem(m: MathMacro) {
    && m.name != ""
    && |m.name| <= MAX_NAME_CHARACTERS
    && AllAlphabetic(Utf8(m.name))
    && m.replacement != ""
    && |m.replacement| <= MAX_REPLACEMENT_CHARACTERS
    && !HasControl(m.replacement)
    && m.argumentCount <= MAX_ARGUMENTS
    && References(Utf8(m.replacement), m.argumentCount)
  }

  predicate ServerStored(macros: seq<MathMacro>) {
    Limited(macros) && forall i | 0 <= i < |macros| :: ServerStoredItem(macros[i])
  }

  predicate SafeDefinition(m: MathMacro) {
    m.name != "def" && Safe(Tokens(m.replacement), 0)
  }

  predicate ServerAccepts(macros: seq<MathMacro>) {
    ServerStored(macros) && forall i | 0 <= i < |macros| :: SafeDefinition(macros[i])
  }

  method SafeTexDefinition(name: string, replacement: string) returns (ok: bool)
    ensures ok == (name != "def" && Safe(Tokens(replacement), 0))
  {
    if name == "def" {
      return false;
    }
    ok := SafeTexDefinitionReplacement(replacement);
  }

  // The scan that both validators perform, character by character.
  method SafeTexDefinitionReplacement(replacement: string) returns (ok: bool)
    ensures ok == Safe(Tokens(replacement), 0)
  {
    ScanSeesTokens(replacement, 0, Text);
    var braceDepth, consecutiveBackslashes := 0, 0;
    assert replacement[0..] == replacement;
    for i := 0 to |replacement|
      invariant 0 <= braceDepth && 0 <= consecutiveBackslashes
      invariant Scan(replacement, 0, false) == Scan(replacement[i..], braceDepth, consecutiveBackslashes % 2 == 1)
    {
      var character := replacement[i];
      assert replacement[i..][1..] == replacement[i + 1..];
      if character == '\\' {
        consecutiveBackslashes := consecutiveBackslashes + 1;
        continue;
      }
      var escaped := consecutiveBackslashes % 2 == 1;
      consecutiveBackslashes := 0;
      if character == '%' && !escaped {
        return false;
      }
      if character == '{' && !escaped {
        braceDepth := braceDepth + 1;
      }
      if character == '}' && !escaped {
        if braceDepth == 0 {
          return false;
        }
        braceDepth := braceDepth - 1;
      }
    }
    ok := braceDepth == 0 && consecutiveBackslashes % 2 == 0;
  }

  method ValidArgumentReferences(bytes: seq<Byte>, argumentCount: Byte) returns (ok: bool)
    ensures ok == References(bytes, argumentCount)
  {
    var index := 0;
    assert bytes[0..] == bytes;
    while index < |bytes|
      invariant 0 <= index <= |bytes|
      invariant References(bytes, argumentCount) == References(bytes[index..], argumentCount)
    {
      ghost var rest := bytes[index..];
      if bytes[index] != 0x23 {
        assert rest[1..] == bytes[index + 1..];
        index := index + 1;
        continue;
      }
      if index + 1 >= |bytes| || bytes[index + 1] < 0x30 {
        return false;
      }
      var number := bytes[index + 1] - 0x30;
      if number == 0 || number > argumentCount {
        return false;
      }
      assert rest[2..] == bytes[index + 2..];
      index := index + 2;
    }
    ok := true;
  }

  // The conditions on one item, apart from the uniqueness of its name.
  method ValidateStoredItem(item: MathMacro) returns (ok: bool)
    ensures ok == ServerStoredItem(item)
  {
    var references := ValidArgumentReferences(Utf8(item.replacement), item.argumentCount);
    ok := !(|| item.name == ""
            || |item.name| > MAX_NAME_CHARACTERS
            || !AllAlphabetic(Utf8(item.name))
            || item.replacement == ""
            || |item.replacement| > MAX_REPLACEMENT_CHARACTERS
            || HasControl(item.replacement)
            || item.argumentCount > MAX_ARGUMENTS
            || !references);
  }

  method ValidateStoredMathMacros(macros: seq<MathMacro>) returns (ok: bool)
    ensures ok == ServerStored(macros)
  {
    if |macros| > MAX_MATH_MACROS || TotalBytes(macros) > MAX_TOTAL_BYTES {
      return false;
    }
    var names: set<string> := {};
    for i := 0 to |macros|
      invariant names == set j | 0 <= j < i :: macros[j].name
      invariant forall j, k | 0 <= j < k < i :: macros[j].name != macros[k].name
      invariant forall j | 0 <= j < i :: ServerStoredItem(macros[j])
    {
      var item := macros[i];
      ok := ValidateStoredItem(item);
      if !ok || item.name in names {
        return false;
      }
      names := names + {item.name};
    }
    ok := true;
  }

  method ValidateMathMacros(macros: seq<MathMacro>) returns (ok: bool)
    ensures ok == ServerAccepts(macros)
  {
    ok := ValidateStoredMathMacros(macros);
    if !ok {
      return;
    }
    for i := 0 to |macros|
      invariant forall j | 0 <= j < i :: SafeDefinition(macros[j])
    {
      ok := SafeTexDefinition(macros[i].name, macros[i].replacement);
      if !ok {
        return;
      }
    }
    ok := true;
  }

  // ---------------------------------------------------------------- the browser

  // Positions of the matches of the global expression /#([^1-9]|$)/.
  function InvalidReferenceMatches(units: seq<int>, from: nat): seq<nat>
    requires from <= |units|
    decreases |units| - from
  {
    if from == |units| then []
    else if units[from] == 0x23 && from + 1 == |units| then [from]
    else if units[from] == 0x23 && !(0x31 <= units[from + 1] <= 0x39) then
      [from] + InvalidReferenceMatches(units, from + 2)
    else InvalidReferenceMatches(units, from + 1)
  }

  // First groups of the matches of the global expression /#([1-9])/, as numbers.
  function ReferenceMatches(units: seq<int>, from: nat): seq<nat>
    requires from <= |units|
    decreases |units| - from
  {
    if from == |units| then []
    else if units[from] == 0x23 && from + 1 < |units| && 0x31 <= units[from + 1] <= 0x39 then
      [units[from + 1] - 0x30] + ReferenceMatches(units, from + 2)
    else ReferenceMatches(units, from + 1)
  }

  predicate AllAtMost(numbers: seq<nat>, bound: nat) {
    numbers == [] || (numbers[0] <= bound && AllAtMost(numbers[1..], bound))
  }

  // What the two expressions of the browser accept.
  predicate BrowserReferences(units: seq<int>, count: nat) {
    InvalidReferenceMatches(units, 0) == [] && AllAtMost(ReferenceMatches(units, 0), count)
  }

  // /^[A-Za-z]+$/
  predicate MatchesName(units: seq<int>) {
    units != [] && AllAlphabetic(units)
  }

  predicate BrowserItem(m: MathMacro) {
    && MatchesName(Utf16(m.name)) && |m.name| <= MAX_NAME_CHARACTERS
    && m.name != "def"
    && Utf16(m.replacement) != []
    && |m.replacement| <= MAX_REPLACEMENT_CHARACTERS
    && !HasControl(m.replacement)
    && Safe(Tokens(m.replacement), 0)
    && m.argumentCount <= MAX_ARGUMENTS
    && BrowserReferences(Utf16(m.replacement), m.argumentCount)
  }

  predicate BrowserAccepts(macros: seq<MathMacro>) {
    Limited(macros) && forall i | 0 <= i < |macros| :: BrowserItem(macros[i])
  }

  method ValidateMathMacro(m: MathMacro) returns (ok: bool)
    ensures ok == BrowserItem(m)
  {
    if !MatchesName(Utf16(m.name)) || |m.name| > MAX_NAME_CHARACTERS {
      return false;
    }
    if m.name == "def" {
      return false;
    }
    if Utf16(m.replacement) == [] || |m.replacement| > MAX_REPLACEMENT_CHARACTERS || HasControl(m.replacement) {
      return false;
    }
    var safe := SafeTexDefinitionReplacement(m.replacement);
    if !safe {
      return false;
    }
    if m.argumentCount > MAX_ARGUMENTS {
      return false;
    }
    var invalidReference := |InvalidReferenceMatches(Utf16(m.replacement), 0)|;
    var references := ReferenceMatches(Utf16(m.replacement), 0);
    ok := !(invalidReference > 0 || !AllAtMost(references, m.argumentCount));
  }

  method ValidateMathMacroList(macros: seq<MathMacro>) returns (ok: bool)
    ensures ok == BrowserAccepts(macros)
  {
    if |macros| > MAX_MATH_MACROS {
      return false;
    }
    if TotalBytes(macros) > MAX_TOTAL_BYTES {
      return false;
    }
    var names: set<string> := {};
    for i := 0 to |macros|
      invariant names == set j | 0 <= j < i :: macros[j].name
      invariant forall j, k | 0 <= j < k < i :: macros[j].name != macros[k].name
      invariant forall j | 0 <= j < i :: BrowserItem(macros[j])
    {
      ok := ValidateMathMacro(macros[i]);
      if !ok {
        return;
      }
      if macros[i].name in names {
        return false;
      }
      names := names + {macros[i].name};
    }
    ok := true;
  }

  // ---------------------------------------------------------------- agreement

  // What both encodings have in common: an ASCII character is one code, every other character is
  // made of codes that are no ASCII characters.
  ghost predicate EncodesCharacter(codes: seq<int>, c: char) {
    if c as int < 0x80 then codes == [c as int]
    else codes != [] && forall i | 0 <= i < |codes| :: codes[i] >= 0x80
  }

  lemma {:induction false} Utf8EncodesCharacter(c: char)
    ensures EncodesCharacter(Utf8Char(c), c)
  {
  }

  lemma {:induction false} Utf16EncodesCharacter(c: char)
    ensures EncodesCharacter(Utf16Char(c), c)
  {
  }

  function Codes(text: string): seq<int> {
    if text == "" then [] else [text[0] as int] + Codes(text[1..])
  }

  lemma {:induction false} ReferencesSkip(block: seq<int>, rest: seq<int>, count: nat)
    requires forall i | 0 <= i < |block| :: block[i] != 0x23
    ensures References(block + rest, count) == References(rest, count)
  {
    if block == [] {
      assert block + rest == rest;
    } else {
      assert (block + rest)[1..] == block[1..] + rest;
      ReferencesSkip(block[1..], rest, count);
    }
  }

  // One character in front of text whose references are judged alike in the encoding and in code
  // points.
  lemma {:induction false} ReferencesOfCharacter(codes: seq<int>, c: char, rest: seq<int>, points: seq<int>, count: nat)
    requires EncodesCharacter(codes, c) && c != '#'
    requires References(rest, count) == References(points, count)
    ensures References(codes + rest, count) == References([c as int] + points, count)
  {
    ReferencesSkip(codes, rest, count);
    ReferencesSkip([c as int], points, count);
  }

  lemma {:induction false} ReferencesOfBytes(text: string, count: nat)
    requires count <= MAX_ARGUMENTS
    ensures References(Utf8(text), count) == References(Codes(text), count)
    decreases |text|
  {
    if text != "" {
      Utf8EncodesCharacter(text[0]);
      if text[0] != '#' {
        ReferencesOfBytes(text[1..], count);
        ReferencesOfCharacter(Utf8Char(text[0]), text[0], Utf8(text[1..]), Codes(text[1..]), count);
      } else if |text| > 1 {
        Utf8EncodesCharacter(text[1]);
        ReferencesOfBytes(text[2..], count);
        assert text[1..][1..] == text[2..];
        ReferencesAfterSign(Utf8Char(text[1]), text[1], Utf8(text[2..]), Codes(text[2..]), count);
        assert Utf8(text) == [0x23] + (Utf8Char(text[1]) + Utf8(text[2..]));
      }
    }
  }

  lemma {:induction false} ReferencesOfUnits(text: string, count: nat)
    requires count <= MAX_ARGUMENTS
    ensures References(Utf16(text), count) == References(Codes(text), count)
    decreases |text|
  {
    if text != "" {
      Utf16EncodesCharacter(text[0]);
      if text[0] != '#' {
        ReferencesOfUnits(text[1..], count);
        ReferencesOfCharacter(Utf16Char(text[0]), text[0], Utf16(text[1..]), Codes(text[1..]), count);
      } else if |text| > 1 {
        Utf16EncodesCharacter(text[1]);
        ReferencesOfUnits(text[2..], count);
        assert text[1..][1..] == text[2..];
        ReferencesAfterSign(Utf16Char(text[1]), text[1], Utf16(text[2..]), Codes(text[2..]), count);
        assert Utf16(text) == [0x23] + (Utf16Char(text[1]) + Utf16(text[2..]));
      }
    }
  }

  // A number sign and the character after it.
  lemma {:induction false} ReferencesAfterSign(codes: seq<int>, c: char, rest: seq<int>, points: seq<int>, count: nat)
    requires EncodesCharacter(codes, c) && count <= MAX_ARGUMENTS
    requires References(rest, count) == References(points, count)
    ensures References([0x23] + (codes + rest), count) == References([0x23] + ([c as int] + points), count)
  {
    var s, t := [0x23] + (codes + rest), [0x23] + ([c as int] + points);
    assert s[1] == codes[0] && t[1] == c as int;
    assert t[2..] == points;
    if c as int < 0x80 {
      assert s[2..] == rest;
    }
  }

  // The two global expressions together accept what the scan accepts.
  lemma {:induction false} MatchesAreReferences(units: seq<int>, from: nat, count: nat)
    requires from <= |units| && count <= MAX_ARGUMENTS
    ensures References(units[from..], count)
            <==> InvalidReferenceMatches(units, from) == [] && AllAtMost(ReferenceMatches(units, from), count)
    decreases |units| - from
  {
    if from < |units| {
      var rest := units[from..];
      assert rest[1..] == units[from + 1..];
      if units[from] != 0x23 {
        MatchesAreReferences(units, from + 1, count);
      } else if from + 1 < |units| && 0x31 <= units[from + 1] <= 0x39 {
        assert rest[2..] == units[from + 2..];
        MatchesAreReferences(units, from + 2, count);
        NoMatchInsideReference(units, from);
        assert ReferenceMatches(units, from)[1..] == ReferenceMatches(units, from + 2);
      } else {
        assert !References(rest, count);
      }
    }
  }

  lemma {:induction false} NoMatchInsideReference(units: seq<int>, from: nat)
    requires from + 1 < |units| && units[from] == 0x23 && 0x31 <= units[from + 1] <= 0x39
    ensures InvalidReferenceMatches(units, from) == InvalidReferenceMatches(units, from + 2)
  {
    assert InvalidReferenceMatches(units, from) == InvalidReferenceMatches(units, from + 1);
  }

  // A name of ASCII letters looks the same in both encodings.
  lemma {:induction false} NamesAgree(name: string)
    ensures Utf16(name) == [] <==> name == ""
    ensures AllAlphabetic(Utf16(name)) <==> AllAlphabetic(Codes(name))
    ensures AllAlphabetic(Utf8(name)) <==> AllAlphabetic(Codes(name))
    ensures AllAlphabetic(Codes(name)) <==> forall i | 0 <= i < |name| :: IsAsciiLetter(name[i])
  {
    if name != "" {
      NamesAgree(name[1..]);
      Utf8EncodesCharacter(name[0]);
      Utf16EncodesCharacter(name[0]);
      AlphabeticSplits(Utf8Char(name[0]), Utf8(name[1..]));
      AlphabeticSplits(Utf16Char(name[0]), Utf16(name[1..]));
      assert (forall i | 0 <= i < |name| :: IsAsciiLetter(name[i]))
        <==> IsAsciiLetter(name[0]) && forall i | 0 <= i < |name[1..]| :: IsAsciiLetter(name[1..][i]);
    }
  }

  lemma {:induction false} AlphabeticSplits(a: seq<int>, b: seq<int>)
    ensures AllAlphabetic(a + b) <==> AllAlphabetic(a) && AllAlphabetic(b)
  {
    if a == [] {
      assert a + b == b;
    } else {
      assert (a + b)[1..] == a[1..] + b;
      AlphabeticSplits(a[1..], b);
    }
  }

  lemma {:induction false} ReferencesAgree(text: string, count: nat)
    requires count <= MAX_ARGUMENTS
    ensures References(Utf8(text), count) == BrowserReferences(Utf16(text), count)
  {
    ReferencesOfBytes(text, count);
    ReferencesOfUnits(text, count);
    MatchesAreReferences(Utf16(text), 0, count);
    assert Utf16(text)[0..] == Utf16(text);
  }

  lemma {:induction false} ItemsAgree(m: MathMacro)
    ensures BrowserItem(m) <==> ServerStoredItem(m) && SafeDefinition(m)
  {
    NamesAgree(m.name);
    if m.argumentCount <= MAX_ARGUMENTS {
      ReferencesAgree(m.replacement, m.argumentCount);
    }
  }

  // The two validators accept exactly the same lists.
  lemma {:induction false} ValidatorsAgree(macros: seq<MathMacro>)
    ensures ServerAccepts(macros) <==> BrowserAccepts(macros)
  {
    forall i | 0 <= i < |macros|
      ensures BrowserItem(macros[i]) <==> ServerStoredItem(macros[i]) && SafeDefinition(macros[i])
    {
      ItemsAgree(macros[i]);
    }
  }

  // The bound on the arguments is what makes the byte scan agree with the expressions: with more than
  // nine it takes the character after the digits for a reference.
  lemma {:induction false} ScansAgreeIff(count: nat)
    ensures (forall text :: References(Utf8(text), count) == BrowserReferences(Utf16(text), count))
            <==> count <= MAX_ARGUMENTS
  {
    if count <= MAX_ARGUMENTS {
      forall text
        ensures References(Utf8(text), count) == BrowserReferences(Utf16(text), count)
      {
        ReferencesAgree(text, count);
      }
    } else {
      ColonIsTakenForReference(count);
    }
  }

  lemma {:induction false} ColonIsTakenForReference(count: nat)
    requires count > MAX_ARGUMENTS
    ensures References(Utf8("#:"), count) && !BrowserReferences(Utf16("#:"), count)
  {
    assert "#:"[1..] == ":" && ":"[1..] == "";
    assert Utf8(":") == [0x3A] && Utf16(":") == [0x3A];
    assert Utf8("#:") == [0x23, 0x3A] && Utf16("#:") == [0x23, 0x3A];
    var units: seq<int> := [0x23, 0x3A];
    assert units[2..] == [];
    assert InvalidReferenceMatches(units, 0) == [0] + InvalidReferenceMatches(units, 2);
  }
}
