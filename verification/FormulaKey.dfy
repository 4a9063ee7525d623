// The key under which a rendered formula is kept (frontend/src/mathTypesetting.ts), with the JSON
// text of the macros as JSON.stringify writes it.
module FormulaKey {
  import opened Numerals
  import opened Sequences
  import opened MathMacros

  datatype Request = Request(latex: string, display: bool, macros: seq<MathMacro>)

  // One character inside a JSON string.
  function Escape(c: char): (text: string)
    ensures text != ""
  {
    if c == '"' then "\\\""
    else if c == '\\' then "\\\\"
    else if c as int == 8 then "\\b"
    else if c as int == 9 then "\\t"
    else if c as int == 10 then "\\n"
    else if c as int == 12 then "\\f"
    else if c as int == 13 then "\\r"
    else if c as int < 0x20 then "\\u00" + [LowerHex(c as int / 16), LowerHex(c as int % 16)]
    else [c]
  }

  // The characters and the closing quote.
  function StringTail(s: string): string {
    if s == "" then "\"" else Escape(s[0]) + StringTail(s[1..])
  }

  function JsonString(s: string): string {
    "\"" + StringTail(s)
  }

  function JsonMacro(m: MathMacro): string {
    "{\"name\":" + (JsonString(m.name) + (",\"replacement\":" + (JsonString(m.replacement)
    + (",\"argument_count\":" + (Decimal(m.argumentCount) + "}")))))
  }

  // The rest of an array after its first element or opening bracket.
  function ArrayTail(macros: seq<MathMacro>): string {
    if macros == [] then "]" else "," + (JsonMacro(macros[0]) + ArrayTail(macros[1..]))
  }

  function JsonArray(macros: seq<MathMacro>): string {
    if macros == [] then "[" + "]" else "[" + (JsonMacro(macros[0]) + ArrayTail(macros[1..]))
  }

  function CacheKey(r: Request): string {
    (if r.display then "block" else "inline") + ("\0" + (JsonArray(r.macros) + ("\0" + r.latex)))
  }

  // ---------------------------------------------------------------- the parts are self-delimiting

  lemma {:induction false} LowerHexInjective(d: nat, e: nat)
    requires d < 16 && e < 16 && LowerHex(d) == LowerHex(e)
    ensures d == e
  {
  }

  lemma {:induction false} EscapeIsPrefixFree(c: char, x: string, d: char, y: string)
    requires Escape(c) + x == Escape(d) + y
    ensures c == d && x == y
  {
    var s, t := Escape(c) + x, Escape(d) + y;
    assert s[0] == Escape(c)[0] && t[0] == Escape(d)[0];
    if |Escape(c)| >= 2 {
      assert s[1] == Escape(c)[1] && t[1] == Escape(d)[1];
      if |Escape(c)| > 2 {
        assert s[4] == Escape(c)[4] && t[4] == Escape(d)[4];
        assert s[5] == Escape(c)[5] && t[5] == Escape(d)[5];
        LowerHexInjective(c as int / 16, d as int / 16);
        LowerHexInjective(c as int % 16, d as int % 16);
      }
    }
    EqualSplits(Escape(c), x, Escape(d), y);
  }

  lemma {:induction false} NoEscapeIsAQuote(c: char, x: string)
    ensures (Escape(c) + x)[0] != '"'
  {
    assert (Escape(c) + x)[0] == Escape(c)[0];
  }

  lemma {:induction false} StringTailIsPrefixFree(a: string, x: string, b: string, y: string)
    requires StringTail(a) + x == StringTail(b) + y
    ensures a == b && x == y
  {
    assert ("\"" + x)[0] == '"' && ("\"" + y)[0] == '"';
    if a == "" && b == "" {
      EqualSplits("\"", x, "\"", y);
    } else if a == "" {
      Assoc3(Escape(b[0]), StringTail(b[1..]), y);
      NoEscapeIsAQuote(b[0], StringTail(b[1..]) + y);
    } else if b == "" {
      Assoc3(Escape(a[0]), StringTail(a[1..]), x);
      NoEscapeIsAQuote(a[0], StringTail(a[1..]) + x);
    } else {
      Assoc3(Escape(a[0]), StringTail(a[1..]), x);
      Assoc3(Escape(b[0]), StringTail(b[1..]), y);
      EscapeIsPrefixFree(a[0], StringTail(a[1..]) + x, b[0], StringTail(b[1..]) + y);
      StringTailIsPrefixFree(a[1..], x, b[1..], y);
      assert a == [a[0]] + a[1..] && b == [b[0]] + b[1..];
    }
  }

  lemma {:induction false} JsonStringIsPrefixFree(a: string, x: string, b: string, y: string)
    requires JsonString(a) + x == JsonString(b) + y
    ensures a == b && x == y
  {
    Assoc3("\"", StringTail(a), x);
    Assoc3("\"", StringTail(b), y);
    EqualSplits("\"", StringTail(a) + x, "\"", StringTail(b) + y);
    StringTailIsPrefixFree(a, x, b, y);
  }

  predicate AllDigits(s: string) {
    forall i | 0 <= i < |s| :: '0' <= s[i] <= '9'
  }

  lemma {:induction false} DigitsAreDigits(n: nat)
    ensures Decimal(n) != "" && AllDigits(Decimal(n))
  {
    if n >= 10 {
      DigitsAreDigits(n / 10);
    }
  }

  lemma {:induction false} DigitsInjective(n: nat, m: nat)
    requires Decimal(n) == Decimal(m)
    ensures n == m
  {
    DigitsAreDigits(n / 10);
    DigitsAreDigits(m / 10);
    LastDigit(n);
    LastDigit(m);
    LowerHexInjective(n % 10, m % 10);
    if n >= 10 && m >= 10 {
      EqualSplits(Decimal(n / 10), [LowerHex(n % 10)], Decimal(m / 10), [LowerHex(m % 10)]);
      DigitsInjective(n / 10, m / 10);
    }
  }

  lemma {:induction false} LastDigit(n: nat)
    ensures Decimal(n) != "" && Decimal(n)[|Decimal(n)| - 1] == LowerHex(n % 10)
  {
  }

  // The first character that is no digit tells where the digits end.
  lemma {:induction false} DigitsEndFirst(a: string, x: string, b: string, y: string)
    requires AllDigits(b) && a + ("}" + x) == b + ("}" + y)
    ensures |b| <= |a|
  {
    var s := a + ("}" + x);
    assert s[|a|] == '}';
    forall i | 0 <= i < |b|
      ensures '0' <= s[i] <= '9'
    {
      assert s[i] == (b + ("}" + y))[i] == b[i];
    }
  }

  // A number ends where the closing brace begins.
  lemma {:induction false} DigitsAreDelimited(n: nat, x: string, m: nat, y: string)
    requires Decimal(n) + ("}" + x) == Decimal(m) + ("}" + y)
    ensures n == m && x == y
  {
    DigitsAreDigits(n);
    DigitsAreDigits(m);
    DigitsEndFirst(Decimal(n), x, Decimal(m), y);
    DigitsEndFirst(Decimal(m), y, Decimal(n), x);
    EqualSplits(Decimal(n), "}" + x, Decimal(m), "}" + y);
    DigitsInjective(n, m);
    EqualSplits("}", x, "}", y);
  }

  lemma {:induction false} RegroupMacro(m: MathMacro, x: string)
    ensures JsonMacro(m) + x
            == "{\"name\":" + (JsonString(m.name) + (",\"replacement\":" + (JsonString(m.replacement)
               + (",\"argument_count\":" + (Decimal(m.argumentCount) + ("}" + x))))))
  {
    var s5 := Decimal(m.argumentCount) + "}";
    Assoc3(Decimal(m.argumentCount), "}", x);
    Assoc3(",\"argument_count\":", s5, x);
    var s4 := ",\"argument_count\":" + s5;
    Assoc3(JsonString(m.replacement), s4, x);
    var s3 := JsonString(m.replacement) + s4;
    Assoc3(",\"replacement\":", s3, x);
    var s2 := ",\"replacement\":" + s3;
    Assoc3(JsonString(m.name), s2, x);
    Assoc3("{\"name\":", JsonString(m.name) + s2, x);
  }

  lemma {:induction false} JsonMacroIsPrefixFree(m: MathMacro, x: string, n: MathMacro, y: string)
    requires JsonMacro(m) + x == JsonMacro(n) + y
    ensures m == n && x == y
  {
    RegroupMacro(m, x);
    RegroupMacro(n, y);
    var c1, c2 := Decimal(m.argumentCount) + ("}" + x), Decimal(n.argumentCount) + ("}" + y);
    var r1, r2 := JsonString(m.replacement) + (",\"argument_count\":" + c1),
        JsonString(n.replacement) + (",\"argument_count\":" + c2);
    var n1, n2 := JsonString(m.name) + (",\"replacement\":" + r1), JsonString(n.name) + (",\"replacement\":" + r2);
    EqualSplits("{\"name\":", n1, "{\"name\":", n2);
    JsonStringIsPrefixFree(m.name, ",\"replacement\":" + r1, n.name, ",\"replacement\":" + r2);
    EqualSplits(",\"replacement\":", r1, ",\"replacement\":", r2);
    JsonStringIsPrefixFree(m.replacement, ",\"argument_count\":" + c1, n.replacement, ",\"argument_count\":" + c2);
    EqualSplits(",\"argument_count\":", c1, ",\"argument_count\":", c2);
    DigitsAreDelimited(m.argumentCount, x, n.argumentCount, y);
  }

  lemma {:induction false} ArrayTailIsPrefixFree(a: seq<MathMacro>, x: string, b: seq<MathMacro>, y: string)
    requires ArrayTail(a) + x == ArrayTail(b) + y
    ensures a == b && x == y
  {
    var s, t := ArrayTail(a) + x, ArrayTail(b) + y;
    assert s[0] == (if a == [] then ']' else ',') && t[0] == (if b == [] then ']' else ',');
    if a == [] {
      EqualSplits("]", x, "]", y);
    } else {
      Assoc4(",", JsonMacro(a[0]), ArrayTail(a[1..]), x);
      Assoc4(",", JsonMacro(b[0]), ArrayTail(b[1..]), y);
      Assoc3(",", JsonMacro(a[0]), ArrayTail(a[1..]));
      Assoc3(",", JsonMacro(b[0]), ArrayTail(b[1..]));
      EqualSplits(",", JsonMacro(a[0]) + (ArrayTail(a[1..]) + x), ",", JsonMacro(b[0]) + (ArrayTail(b[1..]) + y));
      JsonMacroIsPrefixFree(a[0], ArrayTail(a[1..]) + x, b[0], ArrayTail(b[1..]) + y);
      ArrayTailIsPrefixFree(a[1..], x, b[1..], y);
      assert a == [a[0]] + a[1..] && b == [b[0]] + b[1..];
    }
  }

  lemma {:induction false} JsonArrayStarts(a: seq<MathMacro>, x: string)
    ensures |JsonArray(a) + x| > 1 && (JsonArray(a) + x)[1] == if a == [] then ']' else '{'
    ensures a != [] ==> JsonArray(a) + x == "[" + (JsonMacro(a[0]) + (ArrayTail(a[1..]) + x))
  {
    if a != [] {
      Assoc3("[", JsonMacro(a[0]) + ArrayTail(a[1..]), x);
      Assoc3(JsonMacro(a[0]), ArrayTail(a[1..]), x);
    }
  }

  lemma {:induction false} JsonArrayIsPrefixFree(a: seq<MathMacro>, x: string, b: seq<MathMacro>, y: string)
    requires JsonArray(a) + x == JsonArray(b) + y
    ensures a == b && x == y
  {
    JsonArrayStarts(a, x);
    JsonArrayStarts(b, y);
    if a == [] {
      EqualSplits("[" + "]", x, "[" + "]", y);
    } else {
      EqualSplits("[", JsonMacro(a[0]) + (ArrayTail(a[1..]) + x), "[", JsonMacro(b[0]) + (ArrayTail(b[1..]) + y));
      JsonMacroIsPrefixFree(a[0], ArrayTail(a[1..]) + x, b[0], ArrayTail(b[1..]) + y);
      ArrayTailIsPrefixFree(a[1..], x, b[1..], y);
      assert a == [a[0]] + a[1..] && b == [b[0]] + b[1..];
    }
  }

  // Different requests have different keys.
  lemma {:induction false} CacheKeyInjective(r: Request, q: Request)
    requires CacheKey(r) == CacheKey(q)
    ensures r == q
  {
    var k, l := CacheKey(r), CacheKey(q);
    assert k[0] == (if r.display then 'b' else 'i') && l[0] == (if q.display then 'b' else 'i');
    var kind := if r.display then "block" else "inline";
    var a, b := JsonArray(r.macros) + ("\0" + r.latex), JsonArray(q.macros) + ("\0" + q.latex);
    EqualSplits(kind, "\0" + a, kind, "\0" + b);
    EqualSplits("\0", a, "\0", b);
    JsonArrayIsPrefixFree(r.macros, "\0" + r.latex, q.macros, "\0" + q.latex);
    EqualSplits("\0", r.latex, "\0", q.latex);
  }
}
