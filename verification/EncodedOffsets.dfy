// What the converted offsets mean for text: the characters that the scan of frontend/src/textPosition.ts finds
// are those that UTF-16 encodes, with the lengths that UTF-8 gives them.
module EncodedOffsets {
  import opened Unicode
  import opened TextPosition

  lemma {:induction false} WidthsOfCharacter(text: Text, c: char)
    requires Utf16Char(c) <= text
    ensures UnitWidth(text) == |Utf16Char(c)| && ByteWidth(text) == |Utf8Char(c)|
  {
    EncodedCharacter(c);
    assert forall i | 0 <= i < |Utf16Char(c)| :: text[i] == Utf16Char(c)[i];
  }

  // A unit that begins no encoded character stands for itself, and is written as the replacement character.
  lemma {:induction false} WidthsOfLoneSurrogate(text: Text)
    requires text != []
    ensures (exists c: char :: Utf16Char(c) <= text)
         || (UnitWidth(text) == 1 && ByteWidth(text) == |Utf8Char('\U{FFFD}')|)
  {
    if UnitWidth(text) == 2 {
      var c := Paired(text[0], text[1]);
      assert Utf16Char(c) <= text;
    } else if text[0] < 0xD800 || text[0] >= 0xE000 {
      var c := text[0] as char;
      assert Utf16Char(c) <= text;
    }
  }

  function Paired(high: CodeUnit, low: CodeUnit): (c: char)
    requires IsHighSurrogate(high) && IsLowSurrogate(low)
    ensures Utf16Char(c) == [high, low]
  {
    var h: int, l: int := high, low;
    (0x1_0000 + 0x400 * (h - 0xD800) + (l - 0xDC00)) as char
  }

  // A byte offset into the UTF-8 encoding of a text, at or within the k-th character or past the end, is converted
  // into the UTF-16 length of the k characters before.
  lemma {:induction false} OffsetOfCharacter(text: string, k: nat, d: nat)
    requires k <= |text| && (k < |text| ==> d < |Utf8Char(text[k])|)
    ensures TextOffset(Utf16(text), |Utf8(text[..k])| + d) == |Utf16(text[..k])|
  {
    if k > 0 {
      OffsetOfCharacter(text[1..], k - 1, d);
      OffsetGrows(text, k, d);
    } else {
      OffsetBegins(text, d);
    }
  }

  lemma {:induction false} OffsetBegins(text: string, d: nat)
    requires text != "" ==> d < |Utf8Char(text[0])|
    ensures TextOffset(Utf16(text), |Utf8(text[..0])| + d) == |Utf16(text[..0])|
  {
    assert text[..0] == "";
    WithinFirstCharacter(text, d);
  }

  lemma {:induction false} OffsetGrows(text: string, k: nat, d: nat)
    requires 0 < k <= |text|
    requires TextOffset(Utf16(text[1..]), |Utf8(text[1..][..k - 1])| + d) == |Utf16(text[1..][..k - 1])|
    ensures TextOffset(Utf16(text), |Utf8(text[..k])| + d) == |Utf16(text[..k])|
  {
    LengthsOfPrefix(text, k);
    PastFirstCharacter(text, |Utf8(text[1..][..k - 1])| + d);
  }

  lemma {:induction false} WithinFirstCharacter(text: string, d: nat)
    requires text != "" ==> d < |Utf8Char(text[0])|
    ensures TextOffset(Utf16(text), d) == 0
  {
    if text != "" {
      WidthsOfCharacter(Utf16(text), text[0]);
    }
  }

  lemma {:induction false} LengthsOfPrefix(text: string, k: nat)
    requires 0 < k <= |text|
    ensures |Utf8(text[..k])| == |Utf8Char(text[0])| + |Utf8(text[1..][..k - 1])|
    ensures |Utf16(text[..k])| == |Utf16Char(text[0])| + |Utf16(text[1..][..k - 1])|
  {
    assert text[..k][1..] == text[1..][..k - 1];
  }

  lemma {:induction false} PastFirstCharacter(text: string, byteOffset: nat)
    requires text != ""
    ensures TextOffset(Utf16(text), |Utf8Char(text[0])| + byteOffset)
            == |Utf16Char(text[0])| + TextOffset(Utf16(text[1..]), byteOffset)
  {
    WidthsOfCharacter(Utf16(text), text[0]);
    assert Utf16(text)[|Utf16Char(text[0])|..] == Utf16(text[1..]);
  }

  lemma {:induction false} LengthsOfText(text: string)
    ensures Utf8Length(Utf16(text)) == |Utf8(text)|
  {
    if text != "" {
      WidthsOfCharacter(Utf16(text), text[0]);
      LengthsOfText(text[1..]);
    }
  }
}
