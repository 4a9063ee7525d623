// What the two validators of TeX macros accept, in numbers and characters.
module MacroLimits {
  import opened Unicode
  import opened TexTokens
  import opened MathMacros
  import opened MathSplice

  // Every number sign stands before the digit of one of the arguments.
  predicate SignsBeforeDigits(text: string, count: nat) {
    forall i | 0 <= i < |text| && text[i] == '#' ::
      i + 1 < |text| && '1' <= text[i + 1] && text[i + 1] as int <= '0' as int + count
  }

  // Starting d levels deep, no token goes below the outermost level.
  predicate NeverBelow(tokens: seq<Token>, d: int) {
    forall n | 0 <= n <= |tokens| :: d + Level(tokens[..n]) >= 0
  }

  predicate NoneOpenEnded(tokens: seq<Token>) {
    forall i | 0 <= i < |tokens| :: !tokens[i].Comment? && !tokens[i].Dangling?
  }

  // What is demanded of one macro.
  predicate HasLimits(m: MathMacro) {
    && 1 <= |m.name| <= 32 && m.name != "def"
    && (forall i | 0 <= i < |m.name| :: 'A' <= m.name[i] <= 'Z' || 'a' <= m.name[i] <= 'z')
    && 1 <= |m.replacement| <= 512
    && (forall i | 0 <= i < |m.replacement| :: m.replacement[i] >= ' ' && !('\U{7F}' <= m.replacement[i] < '\U{A0}'))
    && NoneOpenEnded(Tokens(m.replacement))
    && Level(Tokens(m.replacement)) == 0 && NeverBelow(Tokens(m.replacement), 0)
    && m.argumentCount <= 9
    && SignsBeforeDigits(m.replacement, m.argumentCount)
  }

  lemma {:induction false} ReferencesAreBeforeDigits(text: string, count: nat)
    requires count <= 9
    ensures References(Codes(text), count) <==> SignsBeforeDigits(text, count)
    decreases |text|
  {
    if text != "" {
      if text[0] != '#' {
        ReferencesAreBeforeDigits(text[1..], count);
        SignsAfter(text, 1, count);
      } else if |text| > 1 && '1' <= text[1] && text[1] as int <= '0' as int + count {
        assert text[1..][1..] == text[2..];
        assert Codes(text) == [0x23, text[1] as int] + Codes(text[2..]);
        ReferencesAreBeforeDigits(text[2..], count);
        SignsAfter(text, 2, count);
      } else {
        SignWithoutDigit(text, count);
      }
    }
  }

  // The first n characters hold no number sign, or one before a digit.
  lemma {:induction false} SignsAfter(text: string, n: nat, count: nat)
    requires 1 <= n <= |text| && n <= 2 && (text[0] == '#' <==> n == 2)
    requires n == 2 ==> '1' <= text[1] && text[1] as int <= '0' as int + count && count <= 9
    ensures SignsBeforeDigits(text, count) <==> SignsBeforeDigits(text[n..], count)
  {
    var rest := text[n..];
    forall i | 0 <= i < |rest|
      ensures rest[i] == text[i + n] && (i + 1 < |rest| <==> i + n + 1 < |text|)
    {
    }
    if SignsBeforeDigits(text, count) {
      forall i | 0 <= i < |rest| && rest[i] == '#'
        ensures i + 1 < |rest| && '1' <= rest[i + 1] && rest[i + 1] as int <= '0' as int + count
      {
        assert text[i + n] == '#';
      }
    }
    if SignsBeforeDigits(rest, count) {
      forall i | 0 <= i < |text| && text[i] == '#'
        ensures i + 1 < |text| && '1' <= text[i + 1] && text[i + 1] as int <= '0' as int + count
      {
        if i >= n {
          var k: nat := i - n;
          assert rest[k] == '#';
        }
      }
    }
  }

  lemma {:induction false} SignWithoutDigit(text: string, count: nat)
    requires text != "" && text[0] == '#' && count <= 9
    requires !(|text| > 1 && '1' <= text[1] && text[1] as int <= '0' as int + count)
    ensures !SignsBeforeDigits(text, count) && !References(Codes(text), count)
  {
    if |text| > 1 {
      assert Codes(text)[1] == text[1] as int;
    }
  }

  lemma {:induction false} LevelAfterFirst(tokens: seq<Token>, d: int, n: nat)
    requires tokens != [] && n < |tokens|
    ensures d + Level(tokens[..n + 1]) == Deeper(tokens[0], d) + Level(tokens[1..][..n])
  {
    assert tokens[..n + 1][1..] == tokens[1..][..n];
  }

  lemma {:induction false} NeverBelowStep(tokens: seq<Token>, d: int)
    requires tokens != []
    ensures NeverBelow(tokens, d) <==> d >= 0 && NeverBelow(tokens[1..], Deeper(tokens[0], d))
  {
    assert Level(tokens[..0]) == 0;
    var rest, e := tokens[1..], Deeper(tokens[0], d);
    if NeverBelow(tokens, d) {
      forall n | 0 <= n <= |rest|
        ensures e + Level(rest[..n]) >= 0
      {
        LevelAfterFirst(tokens, d, n);
        assert d + Level(tokens[..n + 1]) >= 0;
      }
    }
    if d >= 0 && NeverBelow(rest, e) {
      forall n | 0 <= n <= |tokens|
        ensures d + Level(tokens[..n]) >= 0
      {
        if n > 0 {
          LevelAfterFirst(tokens, d, n - 1);
        }
      }
    }
  }

  lemma {:induction false} NoneOpenEndedStep(tokens: seq<Token>)
    requires tokens != []
    ensures NoneOpenEnded(tokens) <==> !tokens[0].Comment? && !tokens[0].Dangling? && NoneOpenEnded(tokens[1..])
  {
    forall i | 0 < i < |tokens|
      ensures tokens[i] == tokens[1..][i - 1]
    {
    }
  }

  lemma {:induction false} BelowIsUnsafe(tokens: seq<Token>, d: int)
    requires d < 0
    ensures !NeverBelow(tokens, d)
  {
    assert Level(tokens[..0]) == 0;
  }

  lemma {:induction false} SafeIsBalanced(tokens: seq<Token>, d: nat)
    ensures Safe(tokens, d) <==> NoneOpenEnded(tokens) && d + Level(tokens) == 0 && NeverBelow(tokens, d)
  {
    if tokens == [] {
      assert NeverBelow(tokens, d);
    } else {
      var e := Deeper(tokens[0], d);
      NoneOpenEndedStep(tokens);
      NeverBelowStep(tokens, d);
      if e >= 0 {
        SafeIsBalanced(tokens[1..], e);
      } else {
        BelowIsUnsafe(tokens[1..], e);
      }
    }
  }

  lemma {:induction false} ItemIsAcceptedIff(m: MathMacro)
    ensures ServerStoredItem(m) && SafeDefinition(m) <==> HasLimits(m)
  {
    NamesAgree(m.name);
    if m.argumentCount <= 9 {
      ReferencesOfBytes(m.replacement, m.argumentCount);
      ReferencesAreBeforeDigits(m.replacement, m.argumentCount);
    }
    SafeIsBalanced(Tokens(m.replacement), 0);
  }

  // The bytes of names and replacements, whatever the order in which they are counted.
  lemma {:induction false} TotalBytesAre(a: seq<MathMacro>, b: seq<MathMacro>)
    ensures TotalBytes(a + b) == TotalBytes(a) + TotalBytes(b)
    ensures forall m: MathMacro :: TotalBytes([m]) == |Utf8(m.name)| + |Utf8(m.replacement)|
    ensures TotalBytes([]) == 0
  {
    if a == [] {
      assert a + b == b;
    } else {
      assert (a + b)[1..] == a[1..] + b;
      TotalBytesAre(a[1..], b);
    }
  }

  lemma {:induction false} DefinitionsAreAcceptedIff(macros: seq<MathMacro>)
    ensures ServerAccepts(macros) <==>
              && |macros| <= 64 && TotalBytes(macros) <= 16384
              && (forall i, j | 0 <= i < |macros| && 0 <= j < |macros| && macros[i].name == macros[j].name :: i == j)
              && forall i | 0 <= i < |macros| :: HasLimits(macros[i])
    ensures BrowserAccepts(macros) <==> ServerAccepts(macros)
  {
    ValidatorsAgree(macros);
    forall m: MathMacro
      ensures ServerStoredItem(m) && SafeDefinition(m) <==> HasLimits(m)
    {
      ItemIsAcceptedIff(m);
    }
  }
}
