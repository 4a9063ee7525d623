// Conversion of UTF-8 byte offsets into UTF-16 text offsets
// (frontend/src/textPosition.ts).
//
// A JavaScript string is a sequence of UTF-16 code units. Iterating it yields one character per
// surrogate pair and one character per remaining unit, a lone surrogate included; the encoder
// writes a lone surrogate as U+FFFD, which takes three bytes.
module TextPosition {
  import opened Numerals
  import opened Unicode

  type Text = seq<CodeUnit>

  predicate IsHighSurrogate(u: CodeUnit) {
    0xD800 <= u < 0xDC00
  }

  predicate IsLowSurrogate(u: CodeUnit) {
    0xDC00 <= u < 0xE000
  }

  // Code units of the first character.
  function UnitWidth(text: Text): (w: nat)
    requires text != []
    ensures 1 <= w <= |text|
  {
    if |text| >= 2 && IsHighSurrogate(text[0]) && IsLowSurrogate(text[1]) then 2 else 1
  }

  // UTF-8 bytes of the first character (section 3 of RFC 3629).
  function ByteWidth(text: Text): (w: nat)
    requires text != []
    ensures 1 <= w <= 4
  {
    if UnitWidth(text) == 2 then 4
    else if text[0] < 0x80 then 1
    else if text[0] < 0x800 then 2
    else 3
  }

  // Length of the whole text in UTF-8 bytes.
  function Utf8Length(text: Text): nat {
    if text == [] then 0 else ByteWidth(text) + Utf8Length(text[UnitWidth(text)..])
  }

  // b does not split a character of the text.
  predicate IsBoundary(text: Text, b: nat): (r: bool)
    ensures r ==> b <= |text|
    decreases |text|
  {
    b == 0 || (text != [] && UnitWidth(text) <= b && IsBoundary(text[UnitWidth(text)..], b - UnitWidth(text)))
  }

  // The text offset of a byte offset.
  function TextOffset(text: Text, byteOffset: int): nat {
    if text == [] || ByteWidth(text) > byteOffset then 0
    else UnitWidth(text) + TextOffset(text[UnitWidth(text)..], byteOffset - ByteWidth(text))
  }

  // The greatest of the byte offsets up to and including position k.
  function RunningMax(offsets: seq<int>, k: nat): int
    requires k < |offsets|
  {
    if k == 0 then offsets[0] else Max(RunningMax(offsets, k - 1), offsets[k])
  }

  // A nonempty prefix that ends on a boundary starts with the first character of the text.
  lemma {:induction false} FirstOfPrefix(text: Text, b: nat)
    requires IsBoundary(text, b) && b > 0
    ensures UnitWidth(text[..b]) == UnitWidth(text) && ByteWidth(text[..b]) == ByteWidth(text)
    ensures text[..b][UnitWidth(text)..] == text[UnitWidth(text)..][..b - UnitWidth(text)]
    ensures Utf8Length(text[..b]) == ByteWidth(text) + Utf8Length(text[UnitWidth(text)..][..b - UnitWidth(text)])
  {
  }

  // A boundary splits the text into two parts whose characters are those of the text.
  lemma {:induction false} BoundarySplits(text: Text, b: nat)
    requires IsBoundary(text, b)
    ensures Utf8Length(text) == Utf8Length(text[..b]) + Utf8Length(text[b..])
    decreases |text|
  {
    if b == 0 {
      assert text[0..] == text;
    } else {
      var w := UnitWidth(text);
      FirstOfPrefix(text, b);
      BoundarySplits(text[w..], b - w);
      assert text[w..][b - w..] == text[b..];
    }
  }

  // Past a boundary the search may restart on the rest of the text.
  lemma {:induction false} TextOffsetFrom(text: Text, b: nat, byteOffset: int)
    requires IsBoundary(text, b)
    requires Utf8Length(text[..b]) <= byteOffset || b == 0
    ensures TextOffset(text, byteOffset) == b + TextOffset(text[b..], byteOffset - Utf8Length(text[..b]))
    decreases |text|
  {
    if b == 0 {
      assert text[0..] == text;
    } else {
      var w := UnitWidth(text);
      FirstOfPrefix(text, b);
      TextOffsetFrom(text[w..], b - w, byteOffset - ByteWidth(text));
      assert text[w..][b - w..] == text[b..];
    }
  }

  lemma {:induction false} FirstStep(text: Text)
    requires text != []
    ensures IsBoundary(text, UnitWidth(text)) && Utf8Length(text[..UnitWidth(text)]) == ByteWidth(text)
  {
    var w := UnitWidth(text);
    assert IsBoundary(text[w..], 0);
    FirstOfPrefix(text, w);
  }

  // A prefix that ends past the first character, by what follows that character.
  lemma {:induction false} PrefixAfterFirst(text: Text, b: nat)
    requires text != [] && IsBoundary(text[UnitWidth(text)..], b)
    ensures IsBoundary(text, UnitWidth(text) + b)
    ensures Utf8Length(text[..UnitWidth(text) + b]) == ByteWidth(text) + Utf8Length(text[UnitWidth(text)..][..b])
  {
    FirstOfPrefix(text, UnitWidth(text) + b);
  }

  // One character further is again a boundary.
  lemma {:induction false} BoundaryStep(text: Text, b: nat)
    requires IsBoundary(text, b) && b < |text|
    ensures IsBoundary(text, b + UnitWidth(text[b..]))
    ensures Utf8Length(text[..b + UnitWidth(text[b..])]) == Utf8Length(text[..b]) + ByteWidth(text[b..])
    decreases |text|
  {
    if b == 0 {
      assert text[0..] == text && text[..0] == [];
      FirstStep(text);
    } else {
      var w := UnitWidth(text);
      BoundaryStep(text[w..], b - w);
      assert text[w..][b - w..] == text[b..];
      PrefixAfterFirst(text, b - w);
      PrefixAfterFirst(text, b - w + UnitWidth(text[b..]));
    }
  }

  // An offset that points into the character at b goes back to b; at the end of the text every
  // further offset stays there.
  lemma {:induction false} TextOffsetLandsOn(text: Text, b: nat, byteOffset: int)
    requires IsBoundary(text, b)
    requires Utf8Length(text[..b]) <= byteOffset || b == 0
    requires b < |text| ==> byteOffset < Utf8Length(text[..b]) + ByteWidth(text[b..])
    ensures TextOffset(text, byteOffset) == b
  {
    TextOffsetFrom(text, b, byteOffset);
  }

  // The result is the last character boundary whose prefix fits into the byte offset: an offset
  // inside a character goes back to its start, an offset past the end goes to the end.
  lemma {:induction false} TextOffsetIsLastFittingBoundary(text: Text, byteOffset: int)
    ensures TextOffset(text, byteOffset) <= |text|
    ensures IsBoundary(text, TextOffset(text, byteOffset))
    ensures byteOffset >= 0 ==> Utf8Length(text[..TextOffset(text, byteOffset)]) <= byteOffset
    ensures forall b: nat | IsBoundary(text, b) && TextOffset(text, byteOffset) < b ::
              byteOffset < Utf8Length(text[..b])
    decreases |text|
  {
    var r := TextOffset(text, byteOffset);
    if r == 0 {
      forall b: nat | IsBoundary(text, b) && 0 < b
        ensures byteOffset < Utf8Length(text[..b])
      {
        FirstOfPrefix(text, b);
      }
    } else {
      var w := UnitWidth(text);
      TextOffsetIsLastFittingBoundary(text[w..], byteOffset - ByteWidth(text));
      FirstOfPrefix(text, r);
      forall b: nat | IsBoundary(text, b) && r < b
        ensures byteOffset < Utf8Length(text[..b])
      {
        FirstOfPrefix(text, b);
      }
    }
  }

  // Offsets that are byte lengths of prefixes are converted exactly.
  lemma {:induction false} ExactOnPrefixes(text: Text, b: nat)
    requires IsBoundary(text, b)
    ensures TextOffset(text, Utf8Length(text[..b])) == b
  {
    BoundarySplits(text, b);
    TextOffsetFrom(text, b, Utf8Length(text[..b]));
    assert TextOffset(text[b..], 0) == 0;
  }

  // A larger byte offset never goes back in the text.
  lemma {:induction false} Monotone(text: Text, x: int, y: int)
    requires x <= y
    ensures TextOffset(text, x) <= TextOffset(text, y)
    decreases |text|
  {
    if text != [] && ByteWidth(text) <= x {
      Monotone(text[UnitWidth(text)..], x - ByteWidth(text), y - ByteWidth(text));
    }
  }

  // The per-offset conversion: a fresh scan of the text.
  method ConvertOffset(text: Text, byteOffset: int) returns (consumedCodeUnits: nat)
    ensures consumedCodeUnits == TextOffset(text, byteOffset)
  {
    var consumedBytes := 0;
    consumedCodeUnits := 0;
    while consumedCodeUnits < |text|
      invariant IsBoundary(text, consumedCodeUnits) && consumedCodeUnits <= |text|
      invariant consumedBytes == Utf8Length(text[..consumedCodeUnits])
      invariant consumedBytes <= byteOffset || consumedCodeUnits == 0
    {
      TextOffsetFrom(text, consumedCodeUnits, byteOffset);
      var rest := text[consumedCodeUnits..];
      if consumedBytes + ByteWidth(rest) > byteOffset {
        break;
      }
      BoundaryStep(text, consumedCodeUnits);
      consumedBytes := consumedBytes + ByteWidth(rest);
      consumedCodeUnits := consumedCodeUnits + UnitWidth(rest);
    }
    TextOffsetFrom(text, consumedCodeUnits, byteOffset);
  }

  // The results so far are final: each is the conversion of the greatest offset up to its own.
  ghost predicate Converted(text: Text, byteOffsets: seq<int>, results: seq<nat>) {
    |results| <= |byteOffsets| &&
    forall k | 0 <= k < |results| :: results[k] == TextOffset(text, RunningMax(byteOffsets, k))
  }

  // No offset converted so far reaches `bytes`.
  ghost predicate SeenBelow(byteOffsets: seq<int>, index: nat, bytes: int) {
    0 < index <= |byteOffsets| ==> RunningMax(byteOffsets, index - 1) < bytes
  }

  // Some offset up to the next one to convert reaches `bytes`.
  ghost predicate AheadReaches(byteOffsets: seq<int>, index: nat, bytes: int) {
    index < |byteOffsets| ==> RunningMax(byteOffsets, index) >= bytes
  }

  // The batch conversion: one scan of the text for all offsets. Whatever the order of the offsets,
  // every result is the conversion of the greatest offset seen so far.
  method ConvertOffsets(text: Text, byteOffsets: seq<int>) returns (results: seq<nat>)
    ensures |results| == |byteOffsets|
    ensures forall k | 0 <= k < |byteOffsets| :: results[k] == TextOffset(text, RunningMax(byteOffsets, k))
  {
    results := [];
    var consumedBytes, consumedCodeUnits := 0, 0;
    while consumedCodeUnits < |text| && |results| < |byteOffsets|
      invariant IsBoundary(text, consumedCodeUnits)
      invariant consumedBytes == Utf8Length(text[..consumedCodeUnits])
      invariant Converted(text, byteOffsets, results)
      invariant SeenBelow(byteOffsets, |results|, consumedBytes)
      invariant AheadReaches(byteOffsets, |results|, consumedBytes) || consumedCodeUnits == 0
      decreases |text| - consumedCodeUnits
    {
      results := ConvertUpTo(text, byteOffsets, consumedCodeUnits, results);
      BoundaryStep(text, consumedCodeUnits);
      consumedBytes := consumedBytes + ByteWidth(text[consumedCodeUnits..]);
      consumedCodeUnits := consumedCodeUnits + UnitWidth(text[consumedCodeUnits..]);
    }
    while |results| < |byteOffsets|
      invariant |results| < |byteOffsets| ==> consumedCodeUnits == |text|
      invariant Converted(text, byteOffsets, results)
      invariant AheadReaches(byteOffsets, |results|, consumedBytes) || consumedCodeUnits == 0
    {
      TextOffsetLandsOn(text, consumedCodeUnits, RunningMax(byteOffsets, |results|));
      results := results + [consumedCodeUnits];
    }
  }

  // Answers every offset that lies before the end of the character at `start`.
  method ConvertUpTo(text: Text, byteOffsets: seq<int>, start: nat, before: seq<nat>) returns (results: seq<nat>)
    requires IsBoundary(text, start) && start < |text|
    requires Converted(text, byteOffsets, before)
    requires SeenBelow(byteOffsets, |before|, Utf8Length(text[..start]))
    requires AheadReaches(byteOffsets, |before|, Utf8Length(text[..start])) || start == 0
    ensures Converted(text, byteOffsets, results)
    ensures SeenBelow(byteOffsets, |results|, Utf8Length(text[..start]) + ByteWidth(text[start..]))
    ensures AheadReaches(byteOffsets, |results|, Utf8Length(text[..start]) + ByteWidth(text[start..]))
  {
    results := before;
    var end := Utf8Length(text[..start]) + ByteWidth(text[start..]);
    while |results| < |byteOffsets| && byteOffsets[|results|] < end
      invariant Converted(text, byteOffsets, results)
      invariant SeenBelow(byteOffsets, |results|, end)
      invariant AheadReaches(byteOffsets, |results|, Utf8Length(text[..start])) || start == 0
    {
      TextOffsetLandsOn(text, start, RunningMax(byteOffsets, |results|));
      results := results + [start];
    }
  }

  predicate Ascending(offsets: seq<int>) {
    forall i, j | 0 <= i < j < |offsets| :: offsets[i] <= offsets[j]
  }

  // The batch converts every offset as the per-offset conversion does.
  ghost predicate Pointwise(text: Text, offsets: seq<int>) {
    forall k | 0 <= k < |offsets| :: TextOffset(text, RunningMax(offsets, k)) == TextOffset(text, offsets[k])
  }

  // For ascending offsets the batch is the per-offset conversion of each of them.
  lemma {:induction false} BatchIsPointwiseWhenAscending(text: Text, offsets: seq<int>)
    requires Ascending(offsets)
    ensures Pointwise(text, offsets)
  {
    forall k: nat | k < |offsets|
      ensures RunningMax(offsets, k) == offsets[k]
    {
      RunningMaxOfAscending(offsets, k);
    }
  }

  lemma {:induction false} RunningMaxOfAscending(offsets: seq<int>, k: nat)
    requires Ascending(offsets) && k < |offsets|
    ensures RunningMax(offsets, k) == offsets[k]
  {
    if k > 0 {
      RunningMaxOfAscending(offsets, k - 1);
      assert offsets[k - 1] <= offsets[k];
    }
  }

  // The batch agrees with the per-offset conversion on a text exactly when the converted offsets
  // do not descend.
  lemma {:induction false} BatchIsPointwiseIff(text: Text, offsets: seq<int>)
    ensures Pointwise(text, offsets)
            <==> forall j | 0 < j < |offsets| :: TextOffset(text, offsets[j - 1]) <= TextOffset(text, offsets[j])
  {
    if forall j | 0 < j < |offsets| :: TextOffset(text, offsets[j - 1]) <= TextOffset(text, offsets[j]) {
      forall k: nat | k < |offsets|
        ensures TextOffset(text, RunningMax(offsets, k)) == TextOffset(text, offsets[k])
      {
        LastConvertsAsGreatest(text, offsets, k);
      }
    }
    forall j: nat | 0 < j < |offsets| && Pointwise(text, offsets)
      ensures TextOffset(text, offsets[j - 1]) <= TextOffset(text, offsets[j])
    {
      assert TextOffset(text, RunningMax(offsets, j - 1)) == TextOffset(text, offsets[j - 1]);
      Monotone(text, RunningMax(offsets, j - 1), RunningMax(offsets, j));
    }
  }

  lemma {:induction false} LastConvertsAsGreatest(text: Text, offsets: seq<int>, k: nat)
    requires forall j | 0 < j < |offsets| :: TextOffset(text, offsets[j - 1]) <= TextOffset(text, offsets[j])
    requires k < |offsets|
    ensures TextOffset(text, RunningMax(offsets, k)) == TextOffset(text, offsets[k])
  {
    if k > 0 {
      LastConvertsAsGreatest(text, offsets, k - 1);
      if RunningMax(offsets, k - 1) >= offsets[k] {
        Monotone(text, offsets[k], RunningMax(offsets, k - 1));
      }
    }
  }

  // Whatever the text is: exactly the lists that ascend, negative offsets taken as zero.
  lemma {:induction false} BatchIsPointwiseOnEveryTextIff(offsets: seq<int>)
    ensures (forall text :: Pointwise(text, offsets))
            <==> forall j | 0 < j < |offsets| :: Max(offsets[j - 1], 0) <= Max(offsets[j], 0)
  {
    if forall j | 0 < j < |offsets| :: Max(offsets[j - 1], 0) <= Max(offsets[j], 0) {
      forall text
        ensures Pointwise(text, offsets)
      {
        forall j: nat | 0 < j < |offsets|
          ensures TextOffset(text, offsets[j - 1]) <= TextOffset(text, offsets[j])
        {
          NegativeIsZero(text, offsets[j - 1]);
          NegativeIsZero(text, offsets[j]);
          Monotone(text, Max(offsets[j - 1], 0), Max(offsets[j], 0));
        }
        BatchIsPointwiseIff(text, offsets);
      }
    }
    forall j: nat | 0 < j < |offsets| && forall text :: Pointwise(text, offsets)
      ensures Max(offsets[j - 1], 0) <= Max(offsets[j], 0)
    {
      var n := Max(offsets[j - 1], 0);
      assert Pointwise(Ascii(n), offsets);
      BatchIsPointwiseIff(Ascii(n), offsets);
      OffsetOfAscii(n, offsets[j - 1]);
      OffsetOfAscii(n, offsets[j]);
    }
  }

  lemma {:induction false} NegativeIsZero(text: Text, byteOffset: int)
    ensures TextOffset(text, byteOffset) == TextOffset(text, Max(byteOffset, 0))
  {
  }

  // n characters of one byte each.
  function Ascii(n: nat): Text {
    if n == 0 then [] else [0x61] + Ascii(n - 1)
  }

  lemma {:induction false} OffsetOfAscii(n: nat, byteOffset: int)
    ensures TextOffset(Ascii(n), byteOffset) == if byteOffset >= n then n else Max(byteOffset, 0)
  {
    if n > 0 {
      assert UnitWidth(Ascii(n)) == 1 && Ascii(n)[1..] == Ascii(n - 1);
      OffsetOfAscii(n - 1, byteOffset - 1);
    }
  }
}
