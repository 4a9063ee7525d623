// Splicing the owner's macros into a formula (`applyMathMacros` in frontend/src/mathTypesetting.ts),
// and what a TeX reader finds in the spliced source.
module MathSplice {
  import opened Unicode
  import opened TexTokens
  import opened MathMacros
  import opened Sequences
  import opened Sorting
  import opened Options

  function Digit(k: nat): char {
    if k < 10 then "0123456789"[k] else '?'
  }

  // "#1#2…" from the k-th parameter up to the n-th.
  function ParameterText(k: nat, n: nat): string
    decreases n - k
  {
    if k > n then "" else "#" + ([Digit(k)] + ParameterText(k + 1, n))
  }

  function DefinitionText(m: MathMacro): string {
    "\\" + "def" + ("\\" + m.name + (ParameterText(1, m.argumentCount) + ("{" + m.replacement + "}")))
  }

  function Definitions(macros: seq<MathMacro>): string {
    if macros == [] then "" else DefinitionText(macros[0]) + Definitions(macros[1..])
  }

  // The macros that are safe to embed; the others are dropped.
  function Applicable(macros: seq<MathMacro>): (applicable: seq<MathMacro>)
    ensures forall m | m in applicable :: BrowserItem(m)
  {
    FilterMembers(BrowserItem, macros);
    Filter(BrowserItem, macros)
  }

  function CountValid(macros: seq<MathMacro>): nat {
    CountIf(BrowserItem, macros)
  }

  // Exactly the valid macros are kept, as often as they are given, each at the place that the number of valid
  // macros before it gives.
  lemma {:induction false} ApplicableKeepsValid(macros: seq<MathMacro>)
    ensures |Applicable(macros)| == CountValid(macros)
    ensures forall i | 0 <= i < |macros| && BrowserItem(macros[i]) ::
              CountValid(macros[..i]) < CountValid(macros) && Applicable(macros)[CountValid(macros[..i])] == macros[i]
    ensures forall m :: multiset(Applicable(macros))[m] == if BrowserItem(m) then multiset(macros)[m] else 0
  {
    FilterPlaces(BrowserItem, macros);
  }

  lemma {:induction false} AllValidAreApplicable(macros: seq<MathMacro>)
    requires forall m | m in macros :: BrowserItem(m)
    ensures Applicable(macros) == macros
  {
    FilterAll(BrowserItem, macros);
  }

  // What the splice relies on.
  predicate Embeddable(m: MathMacro) {
    && m.name != "" && (forall i | 0 <= i < |m.name| :: IsAsciiLetter(m.name[i]))
    && m.name != "def"
    && Safe(Tokens(m.replacement), 0)
    && m.argumentCount <= MAX_ARGUMENTS
  }

  lemma {:induction false} ValidatedIsEmbeddable(m: MathMacro)
    requires BrowserItem(m)
    ensures Embeddable(m)
  {
    NamesAgree(m.name);
  }

  lemma {:induction false} ApplicableIsEmbeddable(macros: seq<MathMacro>)
    ensures forall m | m in Applicable(macros) :: Embeddable(m)
  {
    forall m | m in Applicable(macros)
      ensures Embeddable(m)
    {
      ValidatedIsEmbeddable(m);
    }
  }

  function Clamp(index: int, length: nat): (i: nat)
    ensures i <= length
  {
    if index >= length then length
    else if index >= 0 then index
    else if length + index >= 0 then length + index
    else 0
  }

  // JavaScript's slice, with negative indices counted from the end.
  function Slice(value: string, from: int, to: int): string {
    var f, t := Clamp(from, |value|), Clamp(to, |value|);
    if f < t then value[f..t] else ""
  }

  function Splice(value: string, definitions: string): string {
    Slice(value, 0, 2) + "{" + definitions + Slice(value, 2, -2) + "}" + Slice(value, -2, |value|)
  }

  function Spliced(value: string, macros: seq<MathMacro>): string {
    if Applicable(macros) == [] then value else Splice(value, Definitions(Applicable(macros)))
  }

  // Rewrites the source of every formula of an element.
  method ApplyMathMacros(formulas: array<string>, macros: seq<MathMacro>)
    modifies formulas
    ensures forall i | 0 <= i < formulas.Length :: formulas[i] == Spliced(old(formulas[i]), macros)
  {
    var applicable := Applicable(macros);
    if |applicable| == 0 {
      return;
    }
    SpliceAll(formulas, Definitions(applicable));
  }

  method SpliceAll(formulas: array<string>, definitions: string)
    modifies formulas
    ensures forall i | 0 <= i < formulas.Length :: formulas[i] == Splice(old(formulas[i]), definitions)
  {
    for i := 0 to formulas.Length
      invariant forall k | 0 <= k < i :: formulas[k] == Splice(old(formulas[k]), definitions)
      invariant forall k | i <= k < formulas.Length :: formulas[k] == old(formulas[k])
    {
      formulas[i] := Splice(formulas[i], definitions);
    }
  }

  // ---------------------------------------------------------------- a reader of definitions

  datatype Definition = Definition(name: string, parameters: nat, body: seq<Token>)

  // Position of the token that closes the group in which the tokens start, d levels up.
  function MatchingClose(tokens: seq<Token>, d: nat): (i: Option<nat>)
    ensures i.Some? ==> i.value < |tokens| && tokens[i.value].Close?
  {
    if tokens == [] then None
    else if tokens[0].Close? && d == 0 then Some(0)
    else
      var rest := MatchingClose(tokens[1..], if tokens[0].Open? then d + 1 else if tokens[0].Close? then d - 1 else d);
      if rest.None? then None else Some(rest.value + 1)
  }

  // Reads "#k", "#k+1", … and returns the number of the last parameter and what follows.
  function ReadParameters(tokens: seq<Token>, k: nat): (nat, seq<Token>)
    requires k >= 1
  {
    if |tokens| >= 2 && tokens[0].Hash? && tokens[1] == Plain(Digit(k)) then ReadParameters(tokens[2..], k + 1)
    else (k - 1, tokens)
  }

  // Reads one `\def\name#1…{…}` and returns it with the tokens after its closing brace.
  function ReadDefinition(tokens: seq<Token>): Option<(Definition, seq<Token>)> {
    if |tokens| < 2 || tokens[0] != Word("def") || !tokens[1].Word? then None
    else
      var (parameters, after) := ReadParameters(tokens[2..], 1);
      if after == [] || !after[0].Open? then None
      else
        var close := MatchingClose(after[1..], 0);
        if close.None? then None
        else Some((Definition(tokens[1].name, parameters, after[1..][..close.value]), after[1..][close.value + 1..]))
  }

  function ReadDefinitions(tokens: seq<Token>, count: nat): Option<(seq<Definition>, seq<Token>)>
    decreases count
  {
    if count == 0 then Some(([], tokens))
    else
      var first := ReadDefinition(tokens);
      if first.None? then None
      else
        var rest := ReadDefinitions(first.value.1, count - 1);
        if rest.None? then None else Some(([first.value.0] + rest.value.0, rest.value.1))
  }

  // ---------------------------------------------------------------- tokens of the definitions

  function ParameterTokens(k: nat, n: nat): seq<Token>
    decreases n - k
  {
    if k > n then [] else [Hash, Plain(Digit(k))] + ParameterTokens(k + 1, n)
  }

  function DefinitionTokens(m: MathMacro): seq<Token> {
    [Word("def")] + ([Word(m.name)]
                     + (ParameterTokens(1, m.argumentCount) + ([Open] + Tokens(m.replacement) + [Close])))
  }

  function AllDefinitionTokens(macros: seq<MathMacro>): seq<Token> {
    if macros == [] then [] else DefinitionTokens(macros[0]) + AllDefinitionTokens(macros[1..])
  }

  // "#k" followed by anything but a letter.
  lemma {:induction false} TokensOfParameter(k: nat, tail: string)
    requires tail != "" && !IsAsciiLetter(tail[0])
    ensures Tokens("#" + ([Digit(k)] + tail)) == [Hash] + ([Plain(Digit(k))] + Tokens(tail))
    ensures !IsAsciiLetter(("#" + ([Digit(k)] + tail))[0])
  {
    TokensOfSingle("#", [Digit(k)] + tail);
    TokensOfSingle([Digit(k)], tail);
  }

  lemma {:induction false} TokensOfParameters(k: nat, n: nat, rest: string)
    requires rest != "" && !IsAsciiLetter(rest[0])
    ensures Tokens(ParameterText(k, n) + rest) == ParameterTokens(k, n) + Tokens(rest)
    ensures ParameterText(k, n) + rest != "" && !IsAsciiLetter((ParameterText(k, n) + rest)[0])
    decreases n - k
  {
    if k > n {
      assert ParameterText(k, n) + rest == rest;
    } else {
      TokensOfParameters(k + 1, n, rest);
      TokensOfParameter(k, ParameterText(k + 1, n) + rest);
      Assoc3([Digit(k)], ParameterText(k + 1, n), rest);
      Assoc3("#", [Digit(k)] + ParameterText(k + 1, n), rest);
      ParametersGrow(k, ParameterTokens(k + 1, n), Tokens(rest));
    }
  }

  lemma {:induction false} ParametersGrow(k: nat, more: seq<Token>, rest: seq<Token>)
    ensures [Hash] + ([Plain(Digit(k))] + (more + rest)) == [Hash, Plain(Digit(k))] + more + rest
  {
  }

  // "{replacement}" followed by anything.
  lemma {:induction false} TokensOfBody(replacement: string, rest: string)
    requires Safe(Tokens(replacement), 0)
    ensures Tokens("{" + replacement + "}" + rest) == [Open] + Tokens(replacement) + [Close] + Tokens(rest)
  {
    SafeIsComplete(Tokens(replacement), 0);
    Assoc4("{", replacement, "}", rest);
    TokensOfSingle("{", replacement + ("}" + rest));
    LexSplits(replacement, "}" + rest, Text);
    TokensOfSingle("}", rest);
    Assoc4([Open], Tokens(replacement), [Close], Tokens(rest));
  }

  // The definition is tokenized independently of what follows it.
  lemma {:induction false} TokensOfDefinition(m: MathMacro, rest: string)
    requires Embeddable(m)
    ensures Tokens(DefinitionText(m) + rest) == DefinitionTokens(m) + Tokens(rest)
  {
    var body := "{" + m.replacement + "}";
    var group := [Open] + Tokens(m.replacement) + [Close];
    TokensOfBody(m.replacement, rest);
    var parameters := ParameterText(1, m.argumentCount);
    TokensOfParameters(1, m.argumentCount, body + rest);
    Assoc3(parameters, body, rest);
    Assoc3(ParameterTokens(1, m.argumentCount), group, Tokens(rest));
    var named := "\\" + m.name + (parameters + body);
    TokensOfWord(m.name, parameters + body + rest);
    Assoc3("\\" + m.name, parameters + body, rest);
    Assoc3([Word(m.name)], ParameterTokens(1, m.argumentCount) + group, Tokens(rest));
    TokensOfWord("def", named + rest);
    Assoc3("\\" + "def", named, rest);
    Assoc3([Word("def")], [Word(m.name)] + (ParameterTokens(1, m.argumentCount) + group), Tokens(rest));
  }

  lemma {:induction false} TokensOfDefinitions(macros: seq<MathMacro>, rest: string)
    requires forall m | m in macros :: Embeddable(m)
    ensures Tokens(Definitions(macros) + rest) == AllDefinitionTokens(macros) + Tokens(rest)
  {
    if macros == [] {
      assert Definitions(macros) + rest == rest;
    } else {
      TokensOfDefinitions(macros[1..], rest);
      TokensOfDefinition(macros[0], Definitions(macros[1..]) + rest);
      Assoc3(DefinitionText(macros[0]), Definitions(macros[1..]), rest);
      Assoc3(DefinitionTokens(macros[0]), AllDefinitionTokens(macros[1..]), Tokens(rest));
    }
  }

  // ---------------------------------------------------------------- structure

  lemma {:induction false} ParametersAreNeutral(k: nat, n: nat)
    ensures Safe(ParameterTokens(k, n), 0)
    decreases n - k
  {
    if k <= n {
      ParametersAreNeutral(k + 1, n);
      SafeSplits([Hash, Plain(Digit(k))], ParameterTokens(k + 1, n), 0, 0);
    }
  }

  lemma {:induction false} DefinitionIsNeutral(m: MathMacro)
    requires Embeddable(m)
    ensures Safe(DefinitionTokens(m), 0)
  {
    var parameters, group := ParameterTokens(1, m.argumentCount), [Open] + Tokens(m.replacement) + [Close];
    ParametersAreNeutral(1, m.argumentCount);
    GroupIsNeutral(Tokens(m.replacement));
    SafeSplits(parameters, group, 0, 0);
    SafeSplits([Word(m.name)], parameters + group, 0, 0);
    SafeSplits([Word("def")], [Word(m.name)] + (parameters + group), 0, 0);
  }

  lemma {:induction false} GroupIsNeutral(body: seq<Token>)
    requires Safe(body, 0)
    ensures Safe([Open] + body + [Close], 0)
  {
    assert Safe([Close], 1);
    SafeSplits(body, [Close], 0, 1);
    assert ([Open] + (body + [Close]))[1..] == body + [Close];
    assert [Open] + body + [Close] == [Open] + (body + [Close]);
  }

  // All the definitions together open and close nothing and contain no comment.
  lemma {:induction false} DefinitionsAreNeutral(macros: seq<MathMacro>)
    requires forall m | m in macros :: Embeddable(m)
    ensures Safe(AllDefinitionTokens(macros), 0)
  {
    if macros != [] {
      DefinitionIsNeutral(macros[0]);
      DefinitionsAreNeutral(macros[1..]);
      SafeSplits(DefinitionTokens(macros[0]), AllDefinitionTokens(macros[1..]), 0, 0);
    }
  }

  // A safe sequence followed by a closing brace closes exactly there.
  lemma {:induction false} SafeClosesAt(tokens: seq<Token>, d: nat, rest: seq<Token>)
    requires Safe(tokens, d)
    ensures MatchingClose(tokens + [Close] + rest, d) == Some(|tokens|)
  {
    var all := tokens + [Close] + rest;
    if tokens != [] {
      assert all[1..] == tokens[1..] + [Close] + rest;
      SafeClosesAt(tokens[1..], Deeper(tokens[0], d), rest);
    }
  }

  lemma {:induction false} ReadsParameter(k: nat, rest: seq<Token>)
    requires k >= 1
    ensures ReadParameters([Hash, Plain(Digit(k))] + rest, k) == ReadParameters(rest, k + 1)
  {
    assert ([Hash, Plain(Digit(k))] + rest)[2..] == rest;
  }

  lemma {:induction false} ReadsParameters(k: nat, n: nat, rest: seq<Token>)
    requires 1 <= k <= n + 1 && rest != [] && rest[0].Open?
    ensures ReadParameters(ParameterTokens(k, n) + rest, k) == (n, rest)
    decreases n - k
  {
    if k > n {
      assert ParameterTokens(k, n) + rest == rest;
    } else {
      ReadsParameters(k + 1, n, rest);
      Assoc3([Hash, Plain(Digit(k))], ParameterTokens(k + 1, n), rest);
      ReadsParameter(k, ParameterTokens(k + 1, n) + rest);
    }
  }

  // Reading a spliced definition gives back the macro and stops at the brace that was appended.
  lemma {:induction false} ReadsDefinition(m: MathMacro, rest: seq<Token>)
    requires Embeddable(m)
    ensures ReadDefinition(DefinitionTokens(m) + rest)
            == Some((Definition(m.name, m.argumentCount, Tokens(m.replacement)), rest))
  {
    var body := Tokens(m.replacement);
    var parameters, group := ParameterTokens(1, m.argumentCount), [Open] + body + [Close];
    var after := group + rest;
    ReadsParameters(1, m.argumentCount, after);
    SafeClosesAt(body, 0, rest);
    Assoc3([Word(m.name)], parameters + group, rest);
    Assoc3([Word("def")], [Word(m.name)] + (parameters + group), rest);
    Assoc3(parameters, group, rest);
    DropTwo(Word("def"), Word(m.name), parameters + after);
    AfterOpen(body, rest);
  }

  lemma {:induction false} DropTwo(a: Token, b: Token, rest: seq<Token>)
    ensures ([a] + ([b] + rest))[2..] == rest
  {
  }

  lemma {:induction false} AfterOpen(body: seq<Token>, rest: seq<Token>)
    ensures var after := ([Open] + body + [Close] + rest)[1..];
            after == body + [Close] + rest && after[..|body|] == body && after[|body| + 1..] == rest
  {
  }

  // What a list of macros means to a TeX reader.
  function Meanings(macros: seq<MathMacro>): seq<Definition> {
    if macros == [] then []
    else [Definition(macros[0].name, macros[0].argumentCount, Tokens(macros[0].replacement))] + Meanings(macros[1..])
  }

  // The definitions spliced before any text are read back as exactly the macros, in order, and the
  // text is tokenized as if it stood alone. No definition redefines \def.
  lemma {:induction false} SplicedDefinitionsReadBack(macros: seq<MathMacro>, rest: string)
    requires forall m | m in macros :: Embeddable(m)
    ensures ReadDefinitions(Tokens(Definitions(macros) + rest), |macros|)
            == Some((Meanings(macros), Tokens(rest)))
    ensures forall m | m in macros :: m.name != "def"
  {
    if macros == [] {
      assert Definitions(macros) + rest == rest;
    } else {
      SplicedDefinitionsReadBack(macros[1..], rest);
      var tail := Definitions(macros[1..]) + rest;
      Assoc3(DefinitionText(macros[0]), Definitions(macros[1..]), rest);
      TokensOfDefinition(macros[0], tail);
      ReadsDefinition(macros[0], Tokens(tail));
    }
  }

  // ---------------------------------------------------------------- formulas

  // Level of the groups after the tokens.
  function Level(tokens: seq<Token>): int {
    if tokens == [] then 0 else (if tokens[0].Open? then 1 else if tokens[0].Close? then -1 else 0) + Level(tokens[1..])
  }

  lemma {:induction false} LevelSplits(a: seq<Token>, b: seq<Token>)
    ensures Level(a + b) == Level(a) + Level(b)
  {
    if a == [] {
      assert a + b == b;
    } else {
      assert (a + b)[1..] == a[1..] + b;
      LevelSplits(a[1..], b);
    }
  }

  lemma {:induction false} SafeLevel(tokens: seq<Token>, d: int)
    requires d >= 0 && Safe(tokens, d)
    ensures Level(tokens) == -d
  {
    if tokens != [] {
      SafeLevel(tokens[1..], Deeper(tokens[0], d));
    }
  }

  predicate IsDelimiter(opening: string, closing: string) {
    (opening == "\\(" && closing == "\\)") || (opening == "\\[" && closing == "\\]")
  }

  lemma {:induction false} SplicedFormula(opening: string, latex: string, closing: string, macros: seq<MathMacro>)
    requires IsDelimiter(opening, closing) && Applicable(macros) != []
    ensures Spliced(opening + latex + closing, macros)
            == opening + ("{" + (Definitions(Applicable(macros)) + (latex + "}" + closing)))
  {
    var value := opening + latex + closing;
    var definitions := Definitions(Applicable(macros));
    SliceParts(opening, latex, closing);
    Assoc4("{", definitions, latex, "}" + closing);
    Assoc3("{" + definitions + latex, "}", closing);
    Assoc4(opening, "{", definitions, latex);
    Assoc3(opening, "{" + definitions + latex, "}" + closing);
    SpliceGroups(opening, "{", definitions, latex, "}", closing);
  }

  lemma {:induction false} SliceParts(opening: string, latex: string, closing: string)
    requires |opening| == |closing| == 2
    ensures var value := opening + latex + closing;
            Slice(value, 0, 2) == opening && Slice(value, 2, -2) == latex && Slice(value, -2, |value|) == closing
  {
  }

  lemma {:induction false} SpliceGroups<T>(a: seq<T>, b: seq<T>, c: seq<T>, d: seq<T>, e: seq<T>, f: seq<T>)
    ensures a + b + c + d + e + f == a + (b + (c + (d + e + f)))
  {
  }

  lemma {:induction false} MeaningAt(macros: seq<MathMacro>, i: nat)
    requires i < |macros|
    ensures |Meanings(macros)| == |macros|
    ensures Meanings(macros)[i]
            == Definition(macros[i].name, macros[i].argumentCount, Tokens(macros[i].replacement))
  {
    if i > 0 {
      MeaningAt(macros[1..], i - 1);
    } else if |macros| > 1 {
      MeaningAt(macros[1..], 0);
    }
  }

  // A reader of a rewritten formula finds, behind its delimiter and the brace, one definition for each valid
  // macro of the list, in order and with its arguments and its replacement, and then the formula. Without a
  // valid macro the formula stays as it was.
  lemma {:induction false} SplicedFormulaReadsBack(opening: string, latex: string, closing: string,
                                                   macros: seq<MathMacro>)
    requires IsDelimiter(opening, closing)
    ensures CountValid(macros) == 0 ==> Spliced(opening + latex + closing, macros) == opening + latex + closing
    ensures CountValid(macros) > 0 ==>
              var tokens := Tokens(Spliced(opening + latex + closing, macros));
              && |tokens| >= 2 && tokens[..2] == [Symbol(opening[1]), Open]
              && var read := ReadDefinitions(tokens[2..], CountValid(macros));
              && read.Some? && |read.value.0| == CountValid(macros)
              && read.value.1 == Tokens(latex + "}" + closing)
              && forall i | 0 <= i < |macros| && BrowserItem(macros[i]) ::
                   && CountValid(macros[..i]) < CountValid(macros)
                   && read.value.0[CountValid(macros[..i])]
                      == Definition(macros[i].name, macros[i].argumentCount, Tokens(macros[i].replacement))
  {
    ApplicableKeepsValid(macros);
    if CountValid(macros) > 0 {
      var applicable, rest := Applicable(macros), latex + "}" + closing;
      SplicedFormula(opening, latex, closing, macros);
      TokensOfOpening(opening, Definitions(applicable) + rest);
      ApplicableIsEmbeddable(macros);
      SplicedDefinitionsReadBack(applicable, rest);
      MeaningAt(applicable, 0);
      forall i | 0 <= i < |macros| && BrowserItem(macros[i])
        ensures CountValid(macros[..i]) < CountValid(macros)
        ensures Meanings(applicable)[CountValid(macros[..i])]
                == Definition(macros[i].name, macros[i].argumentCount, Tokens(macros[i].replacement))
      {
        MeaningAt(applicable, CountValid(macros[..i]));
      }
      var tokens := Tokens(Spliced(opening + latex + closing, macros));
      assert tokens[2..] == Tokens(Definitions(applicable) + rest);
    }
  }

  // Whatever the macros and the formula: the tokens of the formula and of its closing brace are
  // those of the formula wrapped in braces without any definition, and every one of them stands at
  // the same level of grouping.
  lemma {:induction false} SplicingKeepsStructure(opening: string, latex: string, closing: string,
                                                  macros: seq<MathMacro>)
    requires IsDelimiter(opening, closing) && Applicable(macros) != []
    ensures var group := [Symbol(opening[1]), Open];
            var inserted := AllDefinitionTokens(Applicable(macros));
            var rest := Tokens(latex + "}" + closing);
            && Tokens(opening + ("{" + (latex + "}" + closing))) == group + rest
            && Tokens(Spliced(opening + latex + closing, macros)) == group + (inserted + rest)
            && Safe(inserted, 0)
            && forall n | 0 <= n <= |rest| :: Level(group + (inserted + rest[..n])) == Level(group + rest[..n])
  {
    var applicable := Applicable(macros);
    var inserted := AllDefinitionTokens(applicable);
    var group := [Symbol(opening[1]), Open];
    ApplicableIsEmbeddable(macros);
    DefinitionsAreNeutral(applicable);
    SplicedFormula(opening, latex, closing, macros);
    TokensOfDefinitions(applicable, latex + "}" + closing);
    TokensOfOpening(opening, Definitions(applicable) + (latex + "}" + closing));
    TokensOfOpening(opening, latex + "}" + closing);
    var rest := Tokens(latex + "}" + closing);
    forall n | 0 <= n <= |rest|
      ensures Level(group + (inserted + rest[..n])) == Level(group + rest[..n])
    {
      NeutralKeepsLevel(group, inserted, rest[..n]);
    }
  }

  lemma {:induction false} NeutralKeepsLevel(a: seq<Token>, inserted: seq<Token>, b: seq<Token>)
    requires Safe(inserted, 0)
    ensures Level(a + (inserted + b)) == Level(a + b)
  {
    SafeLevel(inserted, 0);
    LevelSplits(a, inserted + b);
    LevelSplits(inserted, b);
    LevelSplits(a, b);
  }

  lemma {:induction false} TokensOfOpening(opening: string, rest: string)
    requires |opening| == 2 && opening[0] == '\\' && !IsAsciiLetter(opening[1])
    ensures Tokens(opening + ("{" + rest)) == [Symbol(opening[1]), Open] + Tokens(rest)
  {
    var s := opening + ("{" + rest);
    assert s[1..][1..] == "{" + rest;
    assert Tokens(s) == Lex(s[1..], Escape);
    assert Lex(s[1..], Escape) == [Symbol(opening[1])] + Tokens("{" + rest);
    TokensOfSingle("{", rest);
  }

  // Every group that the formula opens it closes, and it closes no other.
  predicate Enclosed(tokens: seq<Token>, d: nat) {
    if tokens == [] then d == 0
    else !(tokens[0].Close? && d == 0) && Enclosed(tokens[1..], Deeper(tokens[0], d))
  }

  lemma {:induction false} ClosesAfterEnclosed(tokens: seq<Token>, d: nat, rest: seq<Token>)
    ensures MatchingClose(tokens + ([Close] + rest), d) == Some(|tokens|) <==> Enclosed(tokens, d)
  {
    var all := tokens + ([Close] + rest);
    if tokens == [] {
      assert all == [Close] + rest;
    } else {
      assert all[1..] == tokens[1..] + ([Close] + rest);
      if !(tokens[0].Close? && d == 0) {
        ClosesAfterEnclosed(tokens[1..], Deeper(tokens[0], d), rest);
      }
    }
  }

  function Shifted(i: Option<nat>, n: nat): Option<nat> {
    if i.Some? then Some(i.value + n) else None
  }

  lemma {:induction false} NeutralShifts(inserted: seq<Token>, rest: seq<Token>, d: nat)
    requires Safe(inserted, d)
    ensures MatchingClose(inserted + rest, d) == Shifted(MatchingClose(rest, 0), |inserted|)
  {
    if inserted == [] {
      assert inserted + rest == rest;
    } else {
      assert (inserted + rest)[1..] == inserted[1..] + rest;
      NeutralShifts(inserted[1..], rest, Deeper(inserted[0], d));
    }
  }

  // The appended brace is a token, unless the formula ends in a backslash or within a comment.
  predicate EndsComplete(latex: string) {
    EndState(latex, Text).Text? || EndState(latex, Text).InWord?
  }

  lemma {:induction false} BraceAfterFormula(latex: string, closing: string)
    requires EndsComplete(latex)
    ensures Tokens(latex + ("}" + closing)) == Tokens(latex) + ([Close] + Tokens(closing))
  {
    LexContinues(latex, "}" + closing, Text);
    TokensAreCompleted(latex);
    TokensOfSingle("}", closing);
    var done, end := Completed(latex, Text), EndState(latex, Text);
    assert Lex("}" + closing, end) == Flush(end) + Tokens("}" + closing);
    Assoc3(done, Flush(end), Tokens("}" + closing));
  }

  // Otherwise no token at that place closes a group.
  lemma {:induction false} BraceIsLost(latex: string, opening: string, closing: string)
    requires IsDelimiter(opening, closing) && !EndsComplete(latex)
    ensures var tokens := Tokens(latex + ("}" + closing));
            |Tokens(latex)| < |tokens| ==> !tokens[|Tokens(latex)|].Close?
  {
    LexContinues(latex, "}" + closing, Text);
    TokensAreCompleted(latex);
    var end, rest := EndState(latex, Text), "}" + closing;
    if end.Escape? {
      assert rest[1..] == closing;
      assert Lex(rest, Escape) == [Symbol('}')] + Tokens(closing);
      SymbolOfDelimiter(closing);
    } else {
      CommentGoesOn(rest, end.text);
    }
  }

  lemma {:induction false} SymbolOfDelimiter(closing: string)
    requires closing == "\\)" || closing == "\\]"
    ensures Tokens(closing) == [Symbol(closing[1])]
  {
    assert closing[1..][1..] == "";
    assert Tokens(closing) == Lex(closing[1..], Escape);
    assert Lex("", Text) == [];
  }

  // The group opened before the definitions closes exactly at the brace appended after the formula when
  // the formula ends complete and closes what it opens, whatever the macros are.
  lemma {:induction false} GroupClosesAfterFormula(latex: string, opening: string, closing: string,
                                                   macros: seq<MathMacro>)
    requires (forall m | m in macros :: Embeddable(m)) && IsDelimiter(opening, closing)
    ensures MatchingClose(Tokens(Definitions(macros) + (latex + ("}" + closing))), 0)
            == Some(|AllDefinitionTokens(macros)| + |Tokens(latex)|)
       <==> EndsComplete(latex) && Enclosed(Tokens(latex), 0)
  {
    var inserted, rest := AllDefinitionTokens(macros), Tokens(latex + ("}" + closing));
    TokensOfDefinitions(macros, latex + ("}" + closing));
    DefinitionsAreNeutral(macros);
    NeutralShifts(inserted, rest, 0);
    if EndsComplete(latex) {
      BraceAfterFormula(latex, closing);
      ClosesAfterEnclosed(Tokens(latex), 0, Tokens(closing));
    } else {
      BraceIsLost(latex, opening, closing);
    }
  }
}
