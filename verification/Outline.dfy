// Hierarchical line ranges of a note's headings
// (`outline` and `source_line_count` in crates/marginalis-asciidoc/src/analysis.rs).
module Outline {
  import opened Options
  import opened Sorting

  // Line numbers are counted from one.
  type LineNumber = n: int | 1 <= n witness 1

  // A heading as the document analysis reports it. `line` is absent when the position of the
  // heading cannot be resolved; `ownId` says that the ID was written in the source.
  datatype Heading = Heading(documentTitle: bool, level: nat, title: string, id: string, ownId: bool,
                             line: Option<LineNumber>)

  datatype Section = Section(level: nat, title: string, anchor: Option<string>, startLine: LineNumber, endLine: int)

  function CountNewlines(source: string): nat {
    if source == "" then 0 else (if source[0] == '\n' then 1 else 0) + CountNewlines(source[1..])
  }

  // A final newline does not begin another line.
  function SourceLineCount(source: string): nat {
    if source == "" then 0
    else if source[|source| - 1] == '\n' then CountNewlines(source)
    else CountNewlines(source) + 1
  }

  // The line of the character at `offset`.
  function LineAt(source: string, offset: nat): LineNumber
    requires offset < |source|
  {
    1 + CountNewlines(source[..offset])
  }

  lemma {:induction false} CountNewlinesSplits(a: string, b: string)
    ensures CountNewlines(a + b) == CountNewlines(a) + CountNewlines(b)
  {
    if a == "" {
      assert a + b == b;
    } else {
      assert (a + b)[1..] == a[1..] + b;
      CountNewlinesSplits(a[1..], b);
    }
  }

  // The first character is on the first line, and exactly a newline ends a line.
  lemma {:induction false} NewlinesEndLines(source: string, offset: nat)
    requires offset < |source|
    ensures LineAt(source, 0) == 1
    ensures offset + 1 < |source| ==>
              LineAt(source, offset + 1) == LineAt(source, offset) + if source[offset] == '\n' then 1 else 0
  {
    assert source[..offset + 1] == source[..offset] + [source[offset]];
    CountNewlinesSplits(source[..offset], [source[offset]]);
    assert [source[offset]][1..] == "";
  }

  // The line count is the line of the last character: every character lies on one of the counted
  // lines and the last counted line is not empty of characters.
  lemma {:induction false} LineCountIsLastLine(source: string, offset: nat)
    requires offset < |source|
    ensures LineAt(source, offset) <= SourceLineCount(source) == LineAt(source, |source| - 1)
  {
    var last := |source| - 1;
    assert source == source[..last] + [source[last]];
    CountNewlinesSplits(source[..last], [source[last]]);
    assert source[..last] == source[..offset] + source[offset..last];
    CountNewlinesSplits(source[..offset], source[offset..last]);
  }

  // The headings that become sections: everything but the document title.
  predicate IsListed(heading: Heading) {
    !heading.documentTitle
  }

  function Listed(headings: seq<Heading>): seq<Heading> {
    Filter(IsListed, headings)
  }

  // Index of the first section after i, from j on, that is not deeper than i.
  function NextShallow(sections: seq<Section>, i: nat, j: nat): (k: nat)
    requires i < j <= |sections|
    ensures j <= k <= |sections|
    ensures forall m | j <= m < k :: sections[m].level > sections[i].level
    ensures k < |sections| ==> sections[k].level <= sections[i].level
    decreases |sections| - j
  {
    if j == |sections| || sections[j].level <= sections[i].level then j else NextShallow(sections, i, j + 1)
  }

  function EndLine(sections: seq<Section>, lineCount: nat, i: nat): int
    requires i < |sections|
  {
    var k := NextShallow(sections, i, i + 1);
    if k < |sections| then sections[k].startLine - 1 else lineCount
  }

  // Same sections apart from where they end.
  ghost predicate SameStarts(a: seq<Section>, b: seq<Section>) {
    |a| == |b| && forall i | 0 <= i < |a| :: a[i].(endLine := 0) == b[i].(endLine := 0)
  }

  lemma {:induction false} NextShallowSameStarts(a: seq<Section>, b: seq<Section>, i: nat, j: nat)
    requires SameStarts(a, b) && i < j <= |a|
    ensures NextShallow(a, i, j) == NextShallow(b, i, j)
    decreases |a| - j
  {
    assert a[i].(endLine := 0) == b[i].(endLine := 0);
    if j < |a| {
      assert a[j].(endLine := 0) == b[j].(endLine := 0);
      if a[j].level > a[i].level {
        NextShallowSameStarts(a, b, i, j + 1);
      }
    }
  }

  // The section a heading becomes, before its end is known.
  function Opened(heading: Heading, lineCount: nat): Section
    requires heading.line.Some?
  {
    Section(heading.level, heading.title, if heading.ownId then Some(heading.id) else None, heading.line.value,
            lineCount)
  }

  // Headings as the document analysis finds them: one after the other, within the source.
  predicate InLineOrder(headings: seq<Heading>, lineCount: nat) {
    && (forall i | 0 <= i < |headings| :: headings[i].line.Some? && headings[i].line.value <= lineCount)
    && forall i, j | 0 <= i < j < |headings| && headings[i].line.Some? && headings[j].line.Some? ::
         headings[i].line.value < headings[j].line.value
  }

  lemma {:induction false} StartsAreInOrder(headings: seq<Heading>, sections: seq<Section>, lineCount: nat)
    requires |sections| == |headings| && forall i | 0 <= i < |headings| :: headings[i].line.Some?
    requires forall i | 0 <= i < |sections| ::
               sections[i].(endLine := 0) == Opened(headings[i], lineCount).(endLine := 0)
    ensures InLineOrder(headings, lineCount) ==> Ordered(sections, lineCount)
  {
    forall i | 0 <= i < |sections|
      ensures sections[i].startLine == headings[i].line.value
    {
      assert sections[i].(endLine := 0).startLine == Opened(headings[i], lineCount).(endLine := 0).startLine;
    }
  }

  // The section at the place that the number of headings before gives, apart from its end.
  predicate HasSection(heading: Heading, sections: seq<Section>, place: nat) {
    && place < |sections|
    && sections[place].level == heading.level && sections[place].title == heading.title
    && sections[place].anchor == (if heading.ownId then Some(heading.id) else None)
    && Some(sections[place].startLine) == heading.line
  }

  lemma {:induction false} ListedHaveSections(headings: seq<Heading>, sections: seq<Section>, lineCount: nat)
    requires |sections| == |Listed(headings)|
    requires forall i | 0 <= i < |sections| :: Listed(headings)[i].line.Some?
    requires forall i | 0 <= i < |sections| ::
               sections[i].(endLine := 0) == Opened(Listed(headings)[i], lineCount).(endLine := 0)
    ensures |sections| == CountIf(IsListed, headings)
    ensures forall i | 0 <= i < |headings| && !headings[i].documentTitle ::
              HasSection(headings[i], sections, CountIf(IsListed, headings[..i]))
  {
    FilterPlaces(IsListed, headings);
    forall i | 0 <= i < |headings| && !headings[i].documentTitle
      ensures HasSection(headings[i], sections, CountIf(IsListed, headings[..i]))
    {
      var place := CountIf(IsListed, headings[..i]);
      assert IsListed(headings[i]) && Listed(headings)[place] == headings[i];
      assert sections[place].(endLine := 0) == Opened(headings[i], lineCount).(endLine := 0);
    }
  }

  // The outline fails exactly when the position of a heading other than the document title is missing.
  // Otherwise it has one section for each of these headings, in order, ending where its hierarchical range ends.
  method Build(headings: seq<Heading>, lineCount: nat) returns (outline: Option<seq<Section>>)
    ensures outline.None? <==> exists h | h in headings :: !h.documentTitle && h.line.None?
    ensures outline.Some? ==>
              var sections := outline.value;
              && |sections| == CountIf(IsListed, headings)
              && (forall i | 0 <= i < |headings| && !headings[i].documentTitle ::
                    HasSection(headings[i], sections, CountIf(IsListed, headings[..i])))
              && (forall i | 0 <= i < |sections| :: EndsBeforeNextShallow(sections, lineCount, i))
    ensures outline.Some? && InLineOrder(Listed(headings), lineCount) ==> Ranged(outline.value, lineCount)
  {
    FilterMembers(IsListed, headings);
    outline := OpenSections(headings, lineCount);
    if outline.Some? {
      var sections := CloseSections(outline.value, lineCount);
      forall i | 0 <= i < |sections|
        ensures sections[i].(endLine := 0) == Opened(Listed(headings)[i], lineCount).(endLine := 0)
      {
        assert outline.value[i].(endLine := 0) == sections[i].(endLine := 0);
      }
      ListedHaveSections(headings, sections, lineCount);
      StartsAreInOrder(Listed(headings), sections, lineCount);
      outline := Some(sections);
    }
  }

  method OpenSections(headings: seq<Heading>, lineCount: nat) returns (outline: Option<seq<Section>>)
    ensures outline.None? <==> exists h :: h in Listed(headings) && h.line.None?
    ensures outline.Some? ==>
              && |outline.value| == |Listed(headings)|
              && forall i | 0 <= i < |outline.value| ::
                   Listed(headings)[i].line.Some? && outline.value[i] == Opened(Listed(headings)[i], lineCount)
  {
    var sections: seq<Section> := [];
    for h := 0 to |headings|
      invariant |sections| == |Listed(headings[..h])|
      invariant forall i | 0 <= i < |sections| ::
                  Listed(headings[..h])[i].line.Some? && sections[i] == Opened(Listed(headings[..h])[i], lineCount)
    {
      var heading := headings[h];
      FilterAppend(IsListed, headings[..h], heading);
      assert headings[..h + 1] == headings[..h] + [heading];
      if heading.documentTitle {
        continue;
      }
      if heading.line.None? {
        FilterMembers(IsListed, headings);
        return None;
      }
      sections := sections + [Opened(heading, lineCount)];
    }
    assert headings[..|headings|] == headings;
    outline := Some(sections);
  }

  // Rewrites the end of every section that a heading of the same or a higher rank follows.
  method CloseSections(unfinished: seq<Section>, lineCount: nat) returns (sections: seq<Section>)
    requires forall i | 0 <= i < |unfinished| :: unfinished[i].endLine == lineCount
    ensures SameStarts(unfinished, sections)
    ensures forall i | 0 <= i < |sections| :: EndsBeforeNextShallow(sections, lineCount, i)
  {
    sections := unfinished;
    for index := 0 to |sections|
      invariant SameStarts(unfinished, sections)
      invariant forall i | 0 <= i < index :: sections[i].endLine == EndLine(unfinished, lineCount, i)
      invariant forall i | index <= i < |sections| :: sections[i].endLine == lineCount
    {
      EndLineSameStarts(unfinished, sections, lineCount, index);
      var next := NextShallow(sections, index, index + 1);
      if next < |sections| {
        sections := sections[index := sections[index].(endLine := sections[next].startLine - 1)];
      }
    }
    forall i | 0 <= i < |sections|
      ensures EndsBeforeNextShallow(sections, lineCount, i)
    {
      EndLineSameStarts(unfinished, sections, lineCount, i);
    }
  }

  lemma {:induction false} EndLineSameStarts(a: seq<Section>, b: seq<Section>, lineCount: nat, i: nat)
    requires SameStarts(a, b) && i < |a|
    ensures EndLine(a, lineCount, i) == EndLine(b, lineCount, i)
  {
    NextShallowSameStarts(a, b, i, i + 1);
    var k := NextShallow(a, i, i + 1);
    if k < |a| {
      assert a[k].(endLine := 0) == b[k].(endLine := 0);
    }
  }

  // What the outline is built from: headings on strictly increasing lines of the source.
  ghost predicate Ordered(sections: seq<Section>, lineCount: nat) {
    && (forall i, j | 0 <= i < j < |sections| :: sections[i].startLine < sections[j].startLine)
    && (forall i | 0 <= i < |sections| :: sections[i].startLine <= lineCount)
  }

  ghost predicate EndsBeforeNextShallow(sections: seq<Section>, lineCount: nat, i: nat) {
    i < |sections| && sections[i].endLine == EndLine(sections, lineCount, i)
  }

  // A range ends before the first later heading that is not deeper, or with the source.
  lemma {:induction false} RangeEnds(sections: seq<Section>, lineCount: nat, i: nat)
    requires EndsBeforeNextShallow(sections, lineCount, i)
    ensures exists k | i < k <= |sections| ::
              && (forall j | i < j < k :: sections[j].level > sections[i].level)
              && (k < |sections| ==> sections[k].level <= sections[i].level)
              && sections[i].endLine == if k < |sections| then sections[k].startLine - 1 else lineCount
  {
    var k := NextShallow(sections, i, i + 1);
    assert i < k <= |sections|;
  }

  ghost predicate Ranged(sections: seq<Section>, lineCount: nat) {
    Ordered(sections, lineCount) &&
    forall i | 0 <= i < |sections| :: EndsBeforeNextShallow(sections, lineCount, i)
  }

  ghost predicate Inside(inner: Section, outer: Section) {
    outer.startLine <= inner.startLine && inner.endLine <= outer.endLine
  }

  ghost predicate Contains(section: Section, line: int) {
    section.startLine <= line <= section.endLine
  }

  // Every range holds at least its heading and stays within the source.
  lemma {:induction false} RangesAreNonempty(sections: seq<Section>, lineCount: nat, i: nat)
    requires Ranged(sections, lineCount) && i < |sections|
    ensures sections[i].startLine <= sections[i].endLine <= lineCount
  {
    assert EndsBeforeNextShallow(sections, lineCount, i);
  }

  // Every heading after i up to j is deeper than i.
  ghost predicate DeeperUpTo(sections: seq<Section>, i: nat, j: nat) {
    i < j < |sections| && forall k | i < k <= j :: sections[k].level > sections[i].level
  }

  lemma {:induction false} NestedWhenDeeper(sections: seq<Section>, lineCount: nat, i: nat, j: nat)
    requires Ranged(sections, lineCount) && DeeperUpTo(sections, i, j)
    ensures Inside(sections[j], sections[i])
  {
    assert EndsBeforeNextShallow(sections, lineCount, i) && EndsBeforeNextShallow(sections, lineCount, j);
    var next := NextShallow(sections, i, i + 1);
    var after := NextShallow(sections, j, j + 1);
    assert j < next;
    assert after <= next;
  }

  lemma {:induction false} DisjointWhenNotDeeper(sections: seq<Section>, lineCount: nat, i: nat, j: nat)
    requires Ranged(sections, lineCount) && i < j < |sections| && !DeeperUpTo(sections, i, j)
    ensures sections[i].endLine < sections[j].startLine
  {
    assert EndsBeforeNextShallow(sections, lineCount, i);
    assert NextShallow(sections, i, i + 1) <= j;
  }

  // The ranges form a laminar family, and nesting is exactly the nesting of heading levels: two
  // ranges are nested when the headings between them are deeper, and disjoint otherwise.
  lemma {:induction false} Laminar(sections: seq<Section>, lineCount: nat, i: nat, j: nat)
    requires Ranged(sections, lineCount) && i < j < |sections|
    ensures Inside(sections[j], sections[i]) <==> DeeperUpTo(sections, i, j)
    ensures !Inside(sections[j], sections[i]) <==> sections[i].endLine < sections[j].startLine
  {
    RangesAreNonempty(sections, lineCount, j);
    if DeeperUpTo(sections, i, j) {
      NestedWhenDeeper(sections, lineCount, i, j);
    } else {
      DisjointWhenNotDeeper(sections, lineCount, i, j);
    }
  }

  ghost predicate Outermost(sections: seq<Section>, i: nat) {
    i < |sections| && forall j | 0 <= j < |sections| && j != i :: !Inside(sections[i], sections[j])
  }

  lemma {:induction false} NoneShallowerBefore(sections: seq<Section>, lineCount: nat, i: nat, from: nat)
    requires Ranged(sections, lineCount) && Outermost(sections, i) && from <= i
    ensures forall k | from <= k < i :: sections[k].level >= sections[i].level
    decreases i - from
  {
    if from < i {
      NoneShallowerBefore(sections, lineCount, i, from + 1);
      Laminar(sections, lineCount, from, i);
      assert !DeeperUpTo(sections, from, i);
    }
  }

  // The sections that lie in no other section are those that no earlier one is shallower than.
  lemma {:induction false} OutermostByLevel(sections: seq<Section>, lineCount: nat, i: nat)
    requires Ranged(sections, lineCount) && i < |sections|
    ensures Outermost(sections, i) <==> forall k | 0 <= k < i :: sections[k].level >= sections[i].level
  {
    if Outermost(sections, i) {
      NoneShallowerBefore(sections, lineCount, i, 0);
    }
    forall j | 0 <= j < i && forall k | 0 <= k < i :: sections[k].level >= sections[i].level
      ensures !Inside(sections[i], sections[j])
    {
      Laminar(sections, lineCount, j, i);
    }
  }

  // The outermost ranges tile the source from the first heading to the last line: each of these
  // lines belongs to exactly one of them.
  lemma {:induction false} OutermostRangesTile(sections: seq<Section>, lineCount: nat, line: int) returns (i: nat)
    requires Ranged(sections, lineCount) && sections != []
    requires sections[0].startLine <= line <= lineCount
    ensures Outermost(sections, i) && Contains(sections[i], line)
    ensures forall j: nat | Outermost(sections, j) && Contains(sections[j], line) :: j == i
  {
    i := 0;
    while sections[i].endLine < line
      invariant i < |sections|
      invariant forall k | 0 <= k < i :: sections[k].level >= sections[i].level
      invariant sections[i].startLine <= line
      decreases |sections| - i
    {
      assert EndsBeforeNextShallow(sections, lineCount, i);
      i := NextShallow(sections, i, i + 1);
    }
    OutermostByLevel(sections, lineCount, i);
    forall j: nat | Outermost(sections, j) && Contains(sections[j], line)
      ensures j == i
    {
      if i < j {
        Laminar(sections, lineCount, i, j);
      } else if j < i {
        Laminar(sections, lineCount, j, i);
      }
    }
  }
}
