// UTF-8 and UTF-16 encodings of Unicode text (section 3 of RFC 3629, section 2 of RFC 2781), and the
// character classes the repository tests. A Dafny char is a Unicode scalar value.
module Unicode {

  type Byte = b: int | 0 <= b < 0x100

  type CodeUnit = u: int | 0 <= u < 0x1_0000

  function Utf8Char(c: char): (bytes: seq<Byte>)
    ensures 1 <= |bytes| <= 4
  {
    var p := c as int;
    var q := p / 0x40;
    var r := q / 0x40;
    if p < 0x80 then [p]
    else if p < 0x800 then [0xC0 + q, 0x80 + p % 0x40]
    else if p < 0x1_0000 then [0xE0 + r, 0x80 + q % 0x40, 0x80 + p % 0x40]
    else [0xF0 + r / 0x40, 0x80 + r % 0x40, 0x80 + q % 0x40, 0x80 + p % 0x40]
  }

  function Utf8(text: string): seq<Byte> {
    if text == "" then [] else Utf8Char(text[0]) + Utf8(text[1..])
  }

  function Utf16Char(c: char): (units: seq<CodeUnit>)
    ensures 1 <= |units| <= 2
  {
    var p := c as int;
    if p < 0x1_0000 then [p]
    else [0xD800 + (p - 0x1_0000) / 0x400, 0xDC00 + (p - 0x1_0000) % 0x400]
  }

  function Utf16(text: string): seq<CodeUnit> {
    if text == "" then [] else Utf16Char(text[0]) + Utf16(text[1..])
  }

  // General category Cc.
  predicate IsControl(c: char) {
    c as int < 0x20 || 0x7F <= c as int < 0xA0
  }

  // The White_Space property.
  predicate IsWhitespace(c: char) {
    var p := c as int;
    || 0x9 <= p <= 0xD || p == 0x20 || p == 0x85 || p == 0xA0 || p == 0x1680
    || 0x2000 <= p <= 0x200A || p == 0x2028 || p == 0x2029 || p == 0x202F || p == 0x205F || p == 0x3000
  }

  predicate IsAsciiLetter(c: char) {
    'A' <= c <= 'Z' || 'a' <= c <= 'z'
  }

  // The lead byte tells how many bytes follow.
  function SequenceLength(lead: Byte): nat {
    if lead < 0x80 then 1 else if lead < 0xE0 then 2 else if lead < 0xF0 then 3 else 4
  }

  lemma {:induction false} LeadByteGivesLength(c: char)
    ensures |Utf8Char(c)| == SequenceLength(Utf8Char(c)[0])
  {
  }

  // The shortest sequence is taken, with a lead byte for its length and trailing bytes from 80 to BF.
  lemma {:induction false} EncodedCharacter(c: char)
    ensures var p, bytes := c as int, Utf8Char(c);
            && |bytes| == (if p < 0x80 then 1 else if p < 0x800 then 2 else if p < 0x1_0000 then 3 else 4)
            && (|bytes| == 1 ==> bytes[0] == p)
            && (|bytes| == 2 ==> 0xC2 <= bytes[0] < 0xE0)
            && (|bytes| == 3 ==> 0xE0 <= bytes[0] < 0xF0)
            && (|bytes| == 4 ==> 0xF0 <= bytes[0] < 0xF5)
            && forall i | 0 < i < |bytes| :: 0x80 <= bytes[i] < 0xC0
    ensures var p, units := c as int, Utf16Char(c);
            if p < 0x1_0000 then units == [p]
            else && |units| == 2 && 0xD800 <= units[0] < 0xDC00 && 0xDC00 <= units[1] < 0xE000
                 && var high: int, low: int := units[0], units[1];
                    p == 0x1_0000 + 0x400 * (high - 0xD800) + (low - 0xDC00)
  {
  }

  // The code point that the bytes carry.
  function Payload(bytes: seq<int>): int
    requires 1 <= |bytes| <= 4
  {
    if |bytes| == 1 then bytes[0]
    else if |bytes| == 2 then 0x40 * (bytes[0] - 0xC0) + (bytes[1] - 0x80)
    else if |bytes| == 3 then 0x40 * (0x40 * (bytes[0] - 0xE0) + (bytes[1] - 0x80)) + (bytes[2] - 0x80)
    else 0x40 * (0x40 * (0x40 * (bytes[0] - 0xF0) + (bytes[1] - 0x80)) + (bytes[2] - 0x80)) + (bytes[3] - 0x80)
  }

  lemma {:induction false} PayloadOfUtf8Char(c: char)
    ensures Payload(Utf8Char(c)) == c as int
  {
  }

  lemma {:induction false} Utf8CharInjective(c: char, d: char)
    requires Utf8Char(c) == Utf8Char(d)
    ensures c == d
  {
    PayloadOfUtf8Char(c);
    PayloadOfUtf8Char(d);
  }

  // Text is determined by its UTF-8 encoding.
  lemma {:induction false} Utf8Injective(a: string, b: string)
    requires Utf8(a) == Utf8(b)
    ensures a == b
  {
    if a != "" && b != "" {
      assert Utf8(a)[0] == Utf8Char(a[0])[0] && Utf8(b)[0] == Utf8Char(b[0])[0];
      LeadByteGivesLength(a[0]);
      LeadByteGivesLength(b[0]);
      var n := |Utf8Char(a[0])|;
      assert Utf8(a)[..n] == Utf8Char(a[0]) && Utf8(b)[..n] == Utf8Char(b[0]);
      Utf8CharInjective(a[0], b[0]);
      assert Utf8(a)[n..] == Utf8(a[1..]) && Utf8(b)[n..] == Utf8(b[1..]);
      Utf8Injective(a[1..], b[1..]);
      assert a == [a[0]] + a[1..] && b == [b[0]] + b[1..];
    }
  }

  lemma {:induction false} Utf8Splits(a: string, b: string)
    ensures Utf8(a + b) == Utf8(a) + Utf8(b)
  {
    if a == "" {
      assert a + b == b;
    } else {
      assert (a + b)[1..] == a[1..] + b;
      Utf8Splits(a[1..], b);
    }
  }

  lemma {:induction false} Utf8LengthBounds(text: string)
    ensures |text| <= |Utf8(text)| <= 4 * |text|
    ensures (forall i | 0 <= i < |text| :: text[i] as int < 0x80) ==> |Utf8(text)| == |text|
  {
    if text != "" {
      Utf8LengthBounds(text[1..]);
    }
  }
}
