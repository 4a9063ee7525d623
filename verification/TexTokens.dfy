// A tokenizer for TeX formula source: control words and symbols, groups, parameters and comments.
module TexTokens {
  import opened Unicode

  datatype Token =
    | Word(name: string)          // backslash and letters
    | Symbol(character: char)     // backslash and one other character
    | Open
    | Close
    | Hash
    | Comment(text: string)       // percent sign up to the end of the line
    | Dangling                    // backslash at the end of the source
    | Plain(character: char)

  // What the tokenizer is in the middle of.
  datatype State = Text | Escape | InWord(name: string) | InComment(text: string)

  function Single(c: char): Token {
    if c == '{' then Open else if c == '}' then Close else if c == '#' then Hash else Plain(c)
  }

  function Flush(state: State): seq<Token> {
    match state
    case Text => []
    case Escape => [Dangling]
    case InWord(name) => [Word(name)]
    case InComment(text) => [Comment(text)]
  }

  function Lex(s: string, state: State): seq<Token>
    decreases |s|, if state.InWord? then 1 else 0
  {
    if s == "" then Flush(state)
    else match state
      case Text =>
        if s[0] == '\\' then Lex(s[1..], Escape)
        else if s[0] == '%' then Lex(s[1..], InComment(""))
        else [Single(s[0])] + Lex(s[1..], Text)
      case Escape =>
        if IsAsciiLetter(s[0]) then Lex(s[1..], InWord([s[0]])) else [Symbol(s[0])] + Lex(s[1..], Text)
      case InWord(name) =>
        if IsAsciiLetter(s[0]) then Lex(s[1..], InWord(name + [s[0]])) else [Word(name)] + Lex(s, Text)
      case InComment(text) =>
        if s[0] == '\n' then [Comment(text)] + Lex(s[1..], Text) else Lex(s[1..], InComment(text + [s[0]]))
  }

  function Tokens(s: string): seq<Token> {
    Lex(s, Text)
  }

  // No comment, no dangling backslash, and the groups close d levels below where they start,
  // never further down on the way.
  predicate Safe(tokens: seq<Token>, d: nat) {
    if tokens == [] then d == 0
    else match tokens[0]
      case Open => Safe(tokens[1..], d + 1)
      case Close => d > 0 && Safe(tokens[1..], d - 1)
      case Comment(_) => false
      case Dangling => false
      case _ => Safe(tokens[1..], d)
  }

  predicate AllComplete(tokens: seq<Token>) {
    tokens == [] || (!tokens[0].Comment? && !tokens[0].Dangling? && AllComplete(tokens[1..]))
  }

  // The depth at which the next token of a safe sequence stands.
  function Deeper(token: Token, d: int): int {
    if token.Open? then d + 1 else if token.Close? then d - 1 else d
  }

  lemma {:induction false} SafeIsComplete(tokens: seq<Token>, d: nat)
    requires Safe(tokens, d)
    ensures AllComplete(tokens)
  {
    if tokens != [] {
      SafeIsComplete(tokens[1..], Deeper(tokens[0], d));
    }
  }

  lemma {:induction false} SafeSplits(a: seq<Token>, b: seq<Token>, d: nat, e: nat)
    requires Safe(a, d) && Safe(b, e)
    ensures Safe(a + b, d + e)
    decreases |a|
  {
    if a == [] {
      assert a + b == b;
    } else {
      assert (a + b)[1..] == a[1..] + b;
      SafeSplits(a[1..], b, Deeper(a[0], d), e);
    }
  }

  // Source that ends with a complete token is tokenized independently of what follows, unless a
  // final control word would go on.
  lemma {:induction false} LexSplits(a: string, b: string, state: State)
    requires AllComplete(Lex(a, state))
    requires b == "" || !IsAsciiLetter(b[0])
    ensures Lex(a + b, state) == Lex(a, state) + Tokens(b)
    decreases |a|, if state.InWord? then 1 else 0
  {
    if a == "" {
      assert a + b == b;
    } else {
      assert (a + b)[1..] == a[1..] + b;
      var c := a[0];
      match state
      case Text =>
        if c == '\\' {
          LexSplits(a[1..], b, Escape);
        } else if c == '%' {
          LexSplits(a[1..], b, InComment(""));
        } else {
          assert Lex(a, state)[1..] == Lex(a[1..], Text);
          LexSplits(a[1..], b, Text);
        }
      case Escape =>
        if IsAsciiLetter(c) {
          LexSplits(a[1..], b, InWord([c]));
        } else {
          assert Lex(a, state)[1..] == Lex(a[1..], Text);
          LexSplits(a[1..], b, Text);
        }
      case InWord(name) =>
        if IsAsciiLetter(c) {
          LexSplits(a[1..], b, InWord(name + [c]));
        } else {
          assert Lex(a, state)[1..] == Lex(a, Text);
          LexSplits(a, b, Text);
        }
      case InComment(text) =>
        LexSplits(a[1..], b, InComment(text + [c]));
    }
  }

  // The state at the end of the source, and the tokens that are complete by then.
  function EndState(s: string, state: State): State
    decreases |s|, if state.InWord? then 1 else 0
  {
    if s == "" then state
    else match state
      case Text => EndState(s[1..], if s[0] == '\\' then Escape else if s[0] == '%' then InComment("") else Text)
      case Escape => EndState(s[1..], if IsAsciiLetter(s[0]) then InWord([s[0]]) else Text)
      case InWord(name) => if IsAsciiLetter(s[0]) then EndState(s[1..], InWord(name + [s[0]])) else EndState(s, Text)
      case InComment(text) => EndState(s[1..], if s[0] == '\n' then Text else InComment(text + [s[0]]))
  }

  function Completed(s: string, state: State): seq<Token>
    decreases |s|, if state.InWord? then 1 else 0
  {
    if s == "" then []
    else match state
      case Text =>
        if s[0] == '\\' then Completed(s[1..], Escape)
        else if s[0] == '%' then Completed(s[1..], InComment(""))
        else [Single(s[0])] + Completed(s[1..], Text)
      case Escape =>
        if IsAsciiLetter(s[0]) then Completed(s[1..], InWord([s[0]])) else [Symbol(s[0])] + Completed(s[1..], Text)
      case InWord(name) =>
        if IsAsciiLetter(s[0]) then Completed(s[1..], InWord(name + [s[0]])) else [Word(name)] + Completed(s, Text)
      case InComment(text) =>
        if s[0] == '\n' then [Comment(text)] + Completed(s[1..], Text) else Completed(s[1..], InComment(text + [s[0]]))
  }

  // Whatever follows goes on in the state at the end.
  lemma {:induction false} LexContinues(a: string, b: string, state: State)
    ensures Lex(a + b, state) == Completed(a, state) + Lex(b, EndState(a, state))
    decreases |a|, if state.InWord? then 1 else 0
  {
    if a == "" {
      assert a + b == b;
    } else {
      assert (a + b)[1..] == a[1..] + b;
      var c := a[0];
      match state
      case Text => LexContinues(a[1..], b, if c == '\\' then Escape else if c == '%' then InComment("") else Text);
      case Escape => LexContinues(a[1..], b, if IsAsciiLetter(c) then InWord([c]) else Text);
      case InWord(name) =>
        if IsAsciiLetter(c) {
          LexContinues(a[1..], b, InWord(name + [c]));
        } else {
          LexContinues(a, b, Text);
        }
      case InComment(text) => LexContinues(a[1..], b, if c == '\n' then Text else InComment(text + [c]));
    }
  }

  lemma {:induction false} TokensAreCompleted(s: string)
    ensures Tokens(s) == Completed(s, Text) + Flush(EndState(s, Text))
  {
    LexContinues(s, "", Text);
    assert s + "" == s;
  }

  // A comment that is not ended takes the rest of the line.
  lemma {:induction false} CommentGoesOn(s: string, text: string)
    requires '\n' !in s
    ensures Lex(s, InComment(text)) == [Comment(text + s)]
  {
    if s == "" {
      assert text + s == text;
    } else {
      CommentGoesOn(s[1..], text + [s[0]]);
      assert text + [s[0]] + s[1..] == text + s;
    }
  }

  // Text that stays inside a control word.
  lemma {:induction false} LexOfLetters(letters: string, rest: string, name: string)
    requires forall i | 0 <= i < |letters| :: IsAsciiLetter(letters[i])
    requires rest == "" || !IsAsciiLetter(rest[0])
    ensures Lex(letters + rest, InWord(name)) == [Word(name + letters)] + Tokens(rest)
  {
    if letters == "" {
      assert letters + rest == rest && name + letters == name;
    } else {
      assert (letters + rest)[1..] == letters[1..] + rest;
      LexOfLetters(letters[1..], rest, name + [letters[0]]);
      assert name + [letters[0]] + letters[1..] == name + letters;
    }
  }

  lemma {:induction false} TokensOfWord(name: string, rest: string)
    requires name != "" && forall i | 0 <= i < |name| :: IsAsciiLetter(name[i])
    requires rest == "" || !IsAsciiLetter(rest[0])
    ensures Tokens("\\" + name + rest) == [Word(name)] + Tokens(rest)
  {
    var s := name + rest;
    assert ("\\" + name + rest)[1..] == s;
    assert Tokens("\\" + name + rest) == Lex(s, Escape);
    assert s[0] == name[0] && s[1..] == name[1..] + rest;
    assert Lex(s, Escape) == Lex(s[1..], InWord([name[0]]));
    LexOfLetters(name[1..], rest, [name[0]]);
    assert [name[0]] + name[1..] == name;
  }

  lemma {:induction false} TokensOfSingle(one: string, rest: string)
    requires |one| == 1 && one[0] != '\\' && one[0] != '%'
    ensures Tokens(one + rest) == [Single(one[0])] + Tokens(rest)
  {
    assert (one + rest)[1..] == rest;
  }

  // ---------------------------------------------------------------- the parity scan

  // The scan both validators perform: `odd` says whether an odd number of backslashes stands just
  // before s, `depth` counts the open groups.
  predicate Scan(s: string, depth: nat, odd: bool) {
    if s == "" then depth == 0 && !odd
    else if s[0] == '\\' then Scan(s[1..], depth, !odd)
    else if odd then Scan(s[1..], depth, false)
    else if s[0] == '%' then false
    else if s[0] == '{' then Scan(s[1..], depth + 1, false)
    else if s[0] == '}' then depth > 0 && Scan(s[1..], depth - 1, false)
    else Scan(s[1..], depth, false)
  }

  // Inside a comment nothing is safe any more.
  lemma {:induction false} CommentIsUnsafe(s: string, text: string, depth: nat)
    ensures !Safe(Lex(s, InComment(text)), depth)
  {
    if s != "" && s[0] != '\n' {
      CommentIsUnsafe(s[1..], text + [s[0]], depth);
    }
  }

  // Counting backslashes by parity sees exactly the structure that the tokenizer sees, whatever
  // control word the tokenizer is in the middle of.
  lemma {:induction false} ScanSeesTokens(s: string, depth: nat, state: State)
    requires !state.InComment?
    ensures Scan(s, depth, state.Escape?) == Safe(Lex(s, state), depth)
    decreases |s|, if state.InWord? then 1 else 0
  {
    if s != "" {
      var rest := s[1..];
      match state
      case Text =>
        if s[0] == '\\' {
          ScanSeesTokens(rest, depth, Escape);
        } else if s[0] == '%' {
          CommentIsUnsafe(rest, "", depth);
        } else {
          assert Lex(s, Text)[1..] == Lex(rest, Text);
          if s[0] != '}' || depth > 0 {
            ScanSeesTokens(rest, Deeper(Single(s[0]), depth), Text);
          }
        }
      case Escape =>
        if IsAsciiLetter(s[0]) {
          ScanSeesTokens(rest, depth, InWord([s[0]]));
        } else {
          assert Lex(s, Escape)[1..] == Lex(rest, Text);
          ScanSeesTokens(rest, depth, Text);
        }
      case InWord(name) =>
        if IsAsciiLetter(s[0]) {
          ScanSeesTokens(rest, depth, InWord(name + [s[0]]));
        } else {
          assert Lex(s, state)[1..] == Lex(s, Text);
          ScanSeesTokens(s, depth, Text);
        }
    }
  }
}
