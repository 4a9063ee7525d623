// Bibliography items and the CSL-JSON they hold (crates/marginalis-domain/src/model/bibliography.rs).
module Bibliographies {
  import opened Options
  import opened Unicode
  import opened Domain
  import opened Sorting
  import opened JsonValues

  datatype BibliographyItem = BibliographyItem(
    itemId: string, owner: PrincipalRef, citationKey: string, cslJson: string,
    createdAt: I64, updatedAt: I64, revision: Revision)

  // JSON text, of one item and of the array that a bibliography file holds, and the structure and limits
  // that are demanded of the value of an item.
  datatype Csl = Csl(
    parse: string -> Option<Json>,
    textOf: Json -> string,
    validItem: Json -> bool,
    encodeArray: seq<Json> -> seq<Byte>,
    decodeArray: seq<Byte> -> Option<seq<Json>>)

  // value.get("id") as a string.
  function IdOfValue(value: Json): Option<string> {
    var id := if value.Obj? then OwnField(value.fields, "id") else None;
    if id.Some? && id.value.Str? then Some(id.value.s) else None
  }

  // What `BibliographyItem::restore` makes sure of: the text is JSON, and its ID is the citation key.
  predicate ValidItem(csl: Csl, item: BibliographyItem) {
    var value := csl.parse(item.cslJson);
    value.Some? && IdOfValue(value.value) == Some(item.citationKey)
  }

  // The value of a valid item.
  function ValueOf(csl: Csl): BibliographyItem -> Json {
    (item: BibliographyItem) => var value := csl.parse(item.cslJson); if value.Some? then value.value else Null
  }

  // What `ValidatedCslJson::from_encoded` makes sure of, for a value that is printed and parsed again.
  predicate Restores(csl: Csl, citationKey: string, value: Json) {
    var again := csl.parse(csl.textOf(value));
    again.Some? && csl.validItem(again.value) && IdOfValue(again.value) == Some(citationKey)
  }

  // Values that were parsed are read back from the array that is written of them, and print as text that
  // parses to them.
  ghost predicate LawfulCsl(csl: Csl) {
    && (forall items: seq<BibliographyItem> | forall i | 0 <= i < |items| :: csl.parse(items[i].cslJson).Some? ::
          csl.decodeArray(csl.encodeArray(Map(ValueOf(csl), items))) == Some(Map(ValueOf(csl), items)))
    && forall text :: csl.parse(text).Some? ==> csl.parse(csl.textOf(csl.parse(text).value)) == csl.parse(text)
  }

  function FindValue(values: seq<Json>, citationKey: string): Option<Json> {
    if values == [] then None
    else if IdOfValue(values[0]) == Some(citationKey) then Some(values[0])
    else FindValue(values[1..], citationKey)
  }

  // Among values with different IDs, each is found under its own.
  lemma {:induction false} FindsOwnValue(values: seq<Json>, k: nat)
    requires k < |values| && IdOfValue(values[k]).Some?
    requires forall j | 0 <= j < k :: IdOfValue(values[j]) != IdOfValue(values[k])
    ensures FindValue(values, IdOfValue(values[k]).value) == Some(values[k])
  {
    if k > 0 {
      FindsOwnValue(values[1..], k - 1);
    }
  }
}
