// The hexadecimal codec for 32-byte digests (`encode_bytes` and `decode_bytes_32` in
// crates/marginalis-archive/src/archive.rs).
module HexCodec {
  import opened Unicode
  import opened Numerals
  import opened Options

  function Encode(bytes: seq<Byte>): (text: string)
    ensures |text| == 2 * |bytes|
  {
    if bytes == [] then ""
    else Encode(bytes[..|bytes| - 1]) + [HEX[bytes[|bytes| - 1] / 16], HEX[bytes[|bytes| - 1] % 16]]
  }

  // The i-th byte is written as the i-th pair of digits.
  lemma {:induction false} EncodeAt(bytes: seq<Byte>, i: nat)
    requires i < |bytes|
    ensures Encode(bytes)[2 * i] == HEX[bytes[i] / 16] && Encode(bytes)[2 * i + 1] == HEX[bytes[i] % 16]
  {
    var last := |bytes| - 1;
    if i < last {
      EncodeAt(bytes[..last], i);
    }
  }

  method EncodeBytes(bytes: seq<Byte>) returns (encoded: string)
    ensures encoded == Encode(bytes)
  {
    encoded := "";
    for i := 0 to |bytes|
      invariant encoded == Encode(bytes[..i])
    {
      assert bytes[..i + 1][..i] == bytes[..i];
      encoded := encoded + [HEX[bytes[i] / 16]];
      encoded := encoded + [HEX[bytes[i] % 16]];
    }
    assert bytes[..|bytes|] == bytes;
  }

  predicate IsAscii(text: string) {
    forall i | 0 <= i < |text| :: text[i] as int < 0x80
  }

  // Rust's u8::from_str_radix on two characters, which also takes a plus sign and one digit.
  function ParsePair(high: char, low: char): (r: Option<Byte>)
  {
    var h, l := DigitValue(high), DigitValue(low);
    if high == '+' && l.Some? then Some(l.value)
    else if h.Some? && l.Some? then
      assert h.value < 16 && l.value < 16;
      Some(16 * h.value + l.value)
    else None
  }

  lemma {:induction false} ParsePairOfEncoded(b: Byte)
    ensures ParsePair(HEX[b / 16], HEX[b % 16]) == Some(b)
  {
    HexDigitValue(b / 16);
    HexDigitValue(b % 16);
  }

  lemma {:induction false} HexDigitValue(d: nat)
    requires d < 16
    ensures DigitValue(HEX[d]) == Some(d) && HEX[d] != '+'
  {
  }

  lemma {:induction false} PairOfEncoding(bytes: seq<Byte>, i: nat)
    requires i < |bytes|
    ensures ParsePair(Encode(bytes)[2 * i], Encode(bytes)[2 * i + 1]) == Some(bytes[i])
  {
    EncodeAt(bytes, i);
    ParsePairOfEncoded(bytes[i]);
  }

  // The first n pairs of digits.
  function Pairs(text: string, n: nat): (r: Option<seq<Byte>>)
    requires 2 * n <= |text|
    ensures r.Some? ==> |r.value| == n
  {
    if n == 0 then Some([])
    else
      var before, last := Pairs(text, n - 1), ParsePair(text[2 * n - 2], text[2 * n - 1]);
      if before.Some? && last.Some? then Some(before.value + [last.value]) else None
  }

  // Digits of either case and plus signs are read, but the text is accepted only when it is what the
  // encoder writes.
  function Decode(text: string): Option<seq<Byte>> {
    if |text| != 64 || !IsAscii(text) then None
    else
      var digest := Pairs(text, 32);
      if digest.Some? && Encode(digest.value) == text then digest else None
  }

  method DecodeBytes32(encoded: string) returns (decoded: Option<seq<Byte>>)
    ensures decoded == Decode(encoded)
  {
    if |encoded| != 64 || !IsAscii(encoded) {
      return None;
    }
    var digest: seq<Byte> := [];
    for index := 0 to 32
      invariant Pairs(encoded, index) == Some(digest)
    {
      var byte := ParsePair(encoded[2 * index], encoded[2 * index + 1]);
      if byte.None? {
        PairsFail(encoded, index + 1, 32);
        return None;
      }
      digest := digest + [byte.value];
    }
    var reencoded := EncodeBytes(digest);
    decoded := if reencoded == encoded then Some(digest) else None;
  }

  lemma {:induction false} PairsFail(text: string, n: nat, m: nat)
    requires n <= m && 2 * m <= |text| && Pairs(text, n).None?
    ensures Pairs(text, m).None?
  {
    if n < m {
      PairsFail(text, n, m - 1);
    }
  }

  lemma {:induction false} PairsOfEncoding(bytes: seq<Byte>, n: nat)
    requires n <= |bytes|
    ensures Pairs(Encode(bytes), n) == Some(bytes[..n])
  {
    if n > 0 {
      PairsOfEncoding(bytes, n - 1);
      PairOfEncoding(bytes, n - 1);
      assert bytes[..n] == bytes[..n - 1] + [bytes[n - 1]];
    }
  }

  // Decoding undoes encoding, and accepts nothing else.
  lemma {:induction false} DecodeInvertsEncode(bytes: seq<Byte>, text: string)
    requires |bytes| == 32
    ensures Decode(text) == Some(bytes) <==> text == Encode(bytes)
  {
    EncodingIsAscii(bytes);
    PairsOfEncoding(bytes, 32);
    assert bytes[..32] == bytes;
  }

  lemma {:induction false} EncodingIsAscii(bytes: seq<Byte>)
    ensures IsAscii(Encode(bytes))
  {
    if bytes != [] {
      EncodingIsAscii(bytes[..|bytes| - 1]);
    }
  }

  // Two digests with the same text are the same.
  lemma {:induction false} EncodeInjective(a: seq<Byte>, b: seq<Byte>)
    requires Encode(a) == Encode(b)
    ensures a == b
  {
    forall i | 0 <= i < |a|
      ensures a[i] == b[i]
    {
      PairOfEncoding(a, i);
      PairOfEncoding(b, i);
    }
  }
}
