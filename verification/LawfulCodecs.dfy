// The laws that are assumed of parameters can be met together.
module LawfulCodecs {
  import opened Options
  import opened Domain
  import opened Unicode
  import opened Sorting
  import opened ArchiveContents
  import opened ArchivesOfOneNote
  import opened JsonValues
  import opened Bibliographies
  import opened DocumentPaths
  import opened DocumentExports
  import opened DocumentRoundTrip

  ghost function SomeText(bytes: seq<Byte>): Option<string> {
    if exists text :: Utf8(text) == bytes then
      var text :| Utf8(text) == bytes;
      Some(text)
    else None
  }

  // A list of texts as one text: every character is announced, and so is every end.
  function Joined(texts: seq<string>): string
    decreases |texts|, if texts == [] then 0 else |texts[0]|
  {
    if texts == [] then ""
    else if texts[0] == "" then "0" + Joined(texts[1..])
    else "1" + [texts[0][0]] + Joined([texts[0][1..]] + texts[1..])
  }

  lemma {:induction false} JoinedInjective(a: seq<string>, b: seq<string>)
    requires Joined(a) == Joined(b)
    ensures a == b
    decreases |a|, if a == [] then 0 else |a[0]|
  {
    if a != [] && b != [] {
      assert Joined(a)[0] == Joined(b)[0];
      if a[0] == "" {
        assert Joined(a)[1..] == Joined(a[1..]) && Joined(b)[1..] == Joined(b[1..]);
        JoinedInjective(a[1..], b[1..]);
        assert a == [a[0]] + a[1..] && b == [b[0]] + b[1..];
      } else {
        var x, y := [a[0][1..]] + a[1..], [b[0][1..]] + b[1..];
        assert Joined(a)[1] == a[0][0] && Joined(b)[1] == b[0][0];
        assert Joined(a)[2..] == Joined(x) && Joined(b)[2..] == Joined(y);
        JoinedInjective(x, y);
        assert x[0] == y[0] && x[1..] == y[1..];
        assert a[0] == [a[0][0]] + a[0][1..] && b[0] == [b[0][0]] + b[0][1..];
        assert a == [a[0]] + a[1..] && b == [b[0]] + b[1..];
      }
    }
  }

  // An item whose only member is its ID.
  function Bare(text: string): Json {
    Obj([Field("id", Str(text))])
  }

  function TextOfValue(value: Json): string {
    if IdOfValue(value).Some? then IdOfValue(value).value else ""
  }

  function EncodedTexts(values: seq<Json>): seq<Byte> {
    Utf8(Joined(Map(TextOfValue, values)))
  }

  ghost function SomeTexts(bytes: seq<Byte>): Option<seq<Json>> {
    if exists texts :: Utf8(Joined(texts)) == bytes then
      var texts :| Utf8(Joined(texts)) == bytes;
      Some(Map(Bare, texts))
    else None
  }

  lemma {:induction false} BareTextsReadBack(texts: seq<string>)
    ensures SomeTexts(EncodedTexts(Map(Bare, texts))) == Some(Map(Bare, texts))
  {
    forall i | 0 <= i < |texts|
      ensures TextOfValue(Bare(texts[i])) == texts[i]
    {
    }
    assert Map(TextOfValue, Map(Bare, texts)) == texts;
    var bytes := Utf8(Joined(texts));
    forall other: seq<string> | Utf8(Joined(other)) == bytes
      ensures other == texts
    {
      Utf8Injective(Joined(other), Joined(texts));
      JoinedInjective(other, texts);
    }
  }

  lemma {:induction false} LawfulCslExists() returns (csl: Csl)
    ensures LawfulCsl(csl)
  {
    csl := Csl((text: string) => Some(Bare(text)), TextOfValue, (value: Json) => true, EncodedTexts, SomeTexts);
    forall items: seq<BibliographyItem>
      ensures csl.decodeArray(csl.encodeArray(Map(ValueOf(csl), items))) == Some(Map(ValueOf(csl), items))
    {
      var texts := Map((item: BibliographyItem) => item.cslJson, items);
      assert Map(ValueOf(csl), items) == Map(Bare, texts);
      BareTextsReadBack(texts);
    }
  }

  lemma {:induction false} LawfulCodecExists() returns (c: Codec)
    ensures LawfulCodec(c) && PrintsUuids(c.env)
  {
    var env := Environment(
      "1", (id: string) => if IsPrintedId(id) then Some(id) else None, (i: Identity) => true,
      (source: string) => Some(Draft("", [], [])), (name: string) => name,
      AsText, AsBytes, (bytes: seq<Byte>) => seq(32, i => 0), (bytes: seq<Byte>) => Some(Png));
    var csl := LawfulCslExists();
    c := Codec(env, SomeText, csl);
    forall text
      ensures SomeText(Utf8(text)) == Some(text)
    {
      Utf8Injective(SomeText(Utf8(text)).value, text);
    }
    TextOfBytes();
  }
}
