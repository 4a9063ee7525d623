// The links of a restore plan: checked, sorted, and without repetitions
// (`RestorePlan::new` and `sorted_links` in crates/marginalis-application/src/snapshot.rs).
module RestorePlans {
  import opened Sorting

  // From a note to another note, or to a citation key.
  datatype Link = Link(source: string, target: string)

  function LinkKey(l: Link): Key {
    [Points(l.source), Points(l.target)]
  }

  datatype SortedLinks = Links(links: seq<Link>) | InvalidReference(position: nat)

  method SortLinks(links: seq<Link>, noteIds: set<string>) returns (r: SortedLinks)
    ensures r.Links? <==> forall i | 0 <= i < |links| :: links[i].source in noteIds
    ensures r.Links? ==> r.links == Dedup(Sort(links, LinkKey))
    ensures r.InvalidReference? ==>
              && 1 <= r.position <= |links| && links[r.position - 1].source !in noteIds
              && forall i | 0 <= i < r.position - 1 :: links[i].source in noteIds
  {
    for index := 0 to |links|
      invariant forall i | 0 <= i < index :: links[i].source in noteIds
    {
      if links[index].source !in noteIds {
        return InvalidReference(index + 1);
      }
    }
    r := Links(Dedup(Sort(links, LinkKey)));
  }

  lemma {:induction false} LinkKeysIdentify(a: Link, b: Link)
    requires LinkKey(a) == LinkKey(b)
    ensures a == b
  {
    assert LinkKey(a)[0] == LinkKey(b)[0] && LinkKey(a)[1] == LinkKey(b)[1];
    PointsInjective(a.source, b.source);
    PointsInjective(a.target, b.target);
  }

  lemma {:induction false} LinksIdentify(links: seq<Link>)
    ensures KeysIdentify(links, LinkKey)
  {
    forall l, m | l in links && m in links && LinkKey(l) == LinkKey(m)
      ensures l == m
    {
      LinkKeysIdentify(l, m);
    }
  }

  // The result is sorted, has each given link once and no others.
  lemma {:induction false} LinksAreSortedOnce(links: seq<Link>)
    ensures IsSorted(Dedup(Sort(links, LinkKey)), LinkKey) && UniqueKeys(Dedup(Sort(links, LinkKey)), LinkKey)
    ensures forall l :: l in Dedup(Sort(links, LinkKey)) <==> l in links
  {
    SortSorts(links, LinkKey);
    SortMembers(links, LinkKey);
    LinksIdentify(Sort(links, LinkKey));
    DedupOfSorted(Sort(links, LinkKey), LinkKey);
    DedupMembers(Sort(links, LinkKey));
  }

  // The result depends only on which links there are, not on their order or repetition.
  lemma {:induction false} LinksAreCanonical(a: seq<Link>, b: seq<Link>)
    requires forall l :: l in a <==> l in b
    ensures Dedup(Sort(a, LinkKey)) == Dedup(Sort(b, LinkKey))
  {
    LinksAreSortedOnce(a);
    LinksAreSortedOnce(b);
    SortedSetsAreEqual(Dedup(Sort(a, LinkKey)), Dedup(Sort(b, LinkKey)), LinkKey);
  }
}
