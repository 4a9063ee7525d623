// Line alignment of the three versions of a note in an editing conflict
// (frontend/src/editorConflict.ts).
module EditorConflict {
  import opened Options
  import opened Numerals

  // ---------------------------------------------------------------- lines

  // Splits at "\r\n", "\r" and "\n".
  function SplitLines(value: string): (lines: seq<string>)
    ensures lines != []
    ensures forall line | line in lines :: IsOneLine(line)
  {
    if value == "" then [""]
    else if |value| >= 2 && value[0] == '\r' && value[1] == '\n' then [""] + SplitLines(value[2..])
    else if value[0] == '\r' || value[0] == '\n' then [""] + SplitLines(value[1..])
    else
      var rest := SplitLines(value[1..]);
      assert IsOneLine(rest[0]);
      [[value[0]] + rest[0]] + rest[1..]
  }

  predicate IsOneLine(line: string) {
    '\r' !in line && '\n' !in line
  }

  // Lines with a separator behind each but the last.
  function JoinLines(lines: seq<string>, separators: seq<string>): string
    requires |lines| == |separators| + 1
    decreases |lines|
  {
    if separators == [] then lines[0] else lines[0] + separators[0] + JoinLines(lines[1..], separators[1..])
  }

  // Each separator is one of the three, and no carriage return is directly followed by a line feed, which
  // would make one separator of both.
  predicate Separate(lines: seq<string>, separators: seq<string>)
    requires |lines| == |separators| + 1
    decreases |lines|
  {
    && IsOneLine(lines[0])
    && (separators != [] ==>
          && (separators[0] == "\n" || separators[0] == "\r\n"
              || (separators[0] == "\r" && !(lines[1] == "" && |separators| > 1 && separators[1] == "\n")))
          && Separate(lines[1..], separators[1..]))
  }

  lemma {:induction false} SplitConsCharacter(c: char, rest: string)
    requires c != '\r' && c != '\n'
    ensures SplitLines([c] + rest) == [[c] + SplitLines(rest)[0]] + SplitLines(rest)[1..]
  {
    assert ([c] + rest)[1..] == rest;
  }

  lemma {:induction false} SplitConsSeparator(separator: string, rest: string)
    requires separator == "\n" || separator == "\r\n" || (separator == "\r" && (rest == "" || rest[0] != '\n'))
    ensures SplitLines(separator + rest) == [""] + SplitLines(rest)
  {
    assert (separator + rest)[|separator|..] == rest;
  }

  // What stands behind a carriage return that is a separator.
  lemma {:induction false} JoinStartsWithoutLineFeed(lines: seq<string>, separators: seq<string>)
    requires |lines| == |separators| + 1 && Separate(lines, separators)
    requires !(lines[0] == "" && separators != [] && separators[0] == "\n")
    ensures var text := JoinLines(lines, separators); text == "" || text[0] != '\n'
  {
    if lines[0] == "" && separators != [] {
      assert JoinLines(lines, separators)[0] == separators[0][0];
    }
  }

  lemma {:induction false} SplitFirstLine(line: string, rest: string)
    requires IsOneLine(line)
    ensures SplitLines(line + rest) == [line + SplitLines(rest)[0]] + SplitLines(rest)[1..]
  {
    var r := SplitLines(rest);
    assert r == [r[0]] + r[1..];
    if line == "" {
      assert line + rest == rest && line + r[0] == r[0];
    } else {
      assert (line + rest)[1..] == line[1..] + rest;
      SplitFirstLine(line[1..], rest);
      SplitConsCharacter(line[0], line[1..] + rest);
      assert [line[0]] + (line[1..] + r[0]) == line + r[0];
      assert ([line[1..] + r[0]] + r[1..])[1..] == r[1..];
      assert [line[0]] + (line[1..] + rest) == line + rest;
    }
  }

  lemma {:induction false} SplitAtSeparator(line: string, separator: string, rest: string)
    requires IsOneLine(line)
    requires separator == "\n" || separator == "\r\n" || (separator == "\r" && (rest == "" || rest[0] != '\n'))
    ensures SplitLines(line + separator + rest) == [line] + SplitLines(rest)
  {
    SplitConsSeparator(separator, rest);
    SplitFirstLine(line, separator + rest);
    assert line + separator + rest == line + (separator + rest);
    assert line + "" == line && ([""] + SplitLines(rest))[1..] == SplitLines(rest);
  }

  // Lines joined by any of the three separators are the lines of the text.
  lemma {:induction false} SplitInvertsJoin(lines: seq<string>, separators: seq<string>)
    requires |lines| == |separators| + 1 && Separate(lines, separators)
    ensures SplitLines(JoinLines(lines, separators)) == lines
    decreases |lines|
  {
    if separators == [] {
      SplitFirstLine(lines[0], "");
      assert lines[0] + "" == lines[0];
    } else {
      SplitInvertsJoin(lines[1..], separators[1..]);
      if separators[0] == "\r" {
        JoinStartsWithoutLineFeed(lines[1..], separators[1..]);
      }
      SplitAtSeparator(lines[0], separators[0], JoinLines(lines[1..], separators[1..]));
    }
  }

  // The separators of a text, in order.
  function Separators(value: string): seq<string> {
    if value == "" then []
    else if |value| >= 2 && value[0] == '\r' && value[1] == '\n' then ["\r\n"] + Separators(value[2..])
    else if value[0] == '\r' || value[0] == '\n' then [value[..1]] + Separators(value[1..])
    else Separators(value[1..])
  }

  lemma {:induction false} JoinBehindSeparator(lines: seq<string>, separators: seq<string>, separator: string)
    requires |lines| == |separators| + 1 && Separate(lines, separators)
    requires separator == "\n" || separator == "\r\n"
             || (separator == "\r" && !(lines[0] == "" && separators != [] && separators[0] == "\n"))
    ensures Separate([""] + lines, [separator] + separators)
    ensures JoinLines([""] + lines, [separator] + separators) == separator + JoinLines(lines, separators)
  {
    assert ([""] + lines)[1..] == lines && ([separator] + separators)[1..] == separators;
    assert "" + separator + JoinLines(lines, separators) == separator + JoinLines(lines, separators);
  }

  lemma {:induction false} JoinBehindCharacter(lines: seq<string>, separators: seq<string>, c: char)
    requires |lines| == |separators| + 1 && Separate(lines, separators) && c != '\r' && c != '\n'
    ensures Separate([[c] + lines[0]] + lines[1..], separators)
    ensures JoinLines([[c] + lines[0]] + lines[1..], separators) == [c] + JoinLines(lines, separators)
  {
    var longer := [[c] + lines[0]] + lines[1..];
    assert IsOneLine(longer[0]);
    assert longer[1..] == lines[1..];
    if separators != [] {
      assert longer[1] == lines[1];
      ConsPastTwo(c, lines[0], separators[0], JoinLines(lines[1..], separators[1..]));
    }
  }

  lemma {:induction false} ConsPastTwo(c: char, first: string, second: string, rest: string)
    ensures [c] + first + second + rest == [c] + (first + second + rest)
  {
    assert [c] + first + second == [c] + (first + second);
  }

  lemma {:induction false} FirstSeparator(text: string)
    ensures SplitLines(text)[0] == "" && Separators(text) != [] ==> text[0] == Separators(text)[0][0]
  {
  }

  // The text is its lines joined by its separators.
  ghost predicate IsJoined(value: string) {
    && |SplitLines(value)| == |Separators(value)| + 1
    && Separate(SplitLines(value), Separators(value))
    && JoinLines(SplitLines(value), Separators(value)) == value
  }

  lemma {:induction false} SeparatorsConsSeparator(separator: string, rest: string)
    requires separator == "\n" || separator == "\r\n" || (separator == "\r" && (rest == "" || rest[0] != '\n'))
    ensures Separators(separator + rest) == [separator] + Separators(rest)
  {
    var text := separator + rest;
    assert text[|separator|..] == rest;
    if separator != "\r\n" {
      assert text[..1] == separator;
    }
  }

  lemma {:induction false} SeparatorIsJoined(separator: string, rest: string)
    requires separator == "\n" || separator == "\r\n" || (separator == "\r" && (rest == "" || rest[0] != '\n'))
    requires IsJoined(rest)
    ensures IsJoined(separator + rest)
  {
    SplitConsSeparator(separator, rest);
    SeparatorsConsSeparator(separator, rest);
    FirstSeparator(rest);
    JoinBehindSeparator(SplitLines(rest), Separators(rest), separator);
  }

  lemma {:induction false} CharacterIsJoined(c: char, rest: string)
    requires c != '\r' && c != '\n' && IsJoined(rest)
    ensures IsJoined([c] + rest)
  {
    SplitConsCharacter(c, rest);
    JoinBehindCharacter(SplitLines(rest), Separators(rest), c);
    assert ([c] + rest)[1..] == rest;
  }

  // So is every text.
  lemma {:induction false} JoinInvertsSplit(value: string)
    ensures IsJoined(value)
  {
    if value == "" {
    } else if |value| >= 2 && value[0] == '\r' && value[1] == '\n' {
      JoinInvertsSplit(value[2..]);
      SeparatorIsJoined("\r\n", value[2..]);
      assert value == "\r\n" + value[2..];
    } else {
      JoinInvertsSplit(value[1..]);
      assert value == value[..1] + value[1..];
      if value[0] == '\r' || value[0] == '\n' {
        SeparatorIsJoined(value[..1], value[1..]);
      } else {
        CharacterIsJoined(value[0], value[1..]);
      }
    }
  }

  // ---------------------------------------------------------------- longest common subsequence

  predicate IsSubsequence(c: seq<string>, a: seq<string>) {
    c == [] || (a != [] && ((c[0] == a[0] && IsSubsequence(c[1..], a[1..])) || IsSubsequence(c, a[1..])))
  }

  // The recurrence that the table tabulates.
  function Lcs(a: seq<string>, b: seq<string>): nat
    decreases |a| + |b|
  {
    if a == [] || b == [] then 0
    else if a[0] == b[0] then Lcs(a[1..], b[1..]) + 1
    else Max(Lcs(a[1..], b), Lcs(a, b[1..]))
  }

  lemma {:induction false} SubsequenceTails(c: seq<string>, a: seq<string>)
    requires IsSubsequence(c, a) && c != []
    ensures IsSubsequence(c[1..], a) && IsSubsequence(c[1..], a[1..])
  {
    if c[0] == a[0] && IsSubsequence(c[1..], a[1..]) {
      if c[1..] != [] {
        assert IsSubsequence(c[1..], a);
      }
    } else {
      SubsequenceTails(c, a[1..]);
      assert IsSubsequence(c[1..], a);
    }
  }

  // No common subsequence is longer than the recurrence says.
  lemma {:induction false} LcsIsUpperBound(c: seq<string>, a: seq<string>, b: seq<string>)
    requires IsSubsequence(c, a) && IsSubsequence(c, b)
    ensures |c| <= Lcs(a, b)
    decreases |a| + |b|
  {
    if c != [] {
      if a[0] == b[0] {
        SubsequenceTails(c, a);
        SubsequenceTails(c, b);
        LcsIsUpperBound(c[1..], a[1..], b[1..]);
      } else if c[0] != a[0] {
        LcsIsUpperBound(c, a[1..], b);
      } else {
        LcsIsUpperBound(c, a, b[1..]);
      }
    }
  }

  // ---------------------------------------------------------------- alignment

  // insertions[i] are the lines of the variant placed before baseline line i (the last entry: after
  // the last line); matches[i] is the line of the variant that keeps baseline line i.
  datatype AlignedLines = AlignedLines(insertions: seq<seq<string>>, matches: seq<Option<string>>)

  predicate FitsBaseline(aligned: AlignedLines, baseline: seq<string>) {
    && |aligned.insertions| == |baseline| + 1
    && |aligned.matches| == |baseline|
    && forall i | 0 <= i < |baseline| && aligned.matches[i].Some? :: aligned.matches[i].value == baseline[i]
  }

  function Present(cell: Option<string>): seq<string> {
    if cell.Some? then [cell.value] else []
  }

  function Presents(cells: seq<Option<string>>): seq<string> {
    if cells == [] then [] else Present(cells[0]) + Presents(cells[1..])
  }

  // The lines of the variant in reading order.
  function Reading(aligned: AlignedLines): seq<string>
    requires |aligned.insertions| == |aligned.matches| + 1
    decreases |aligned.matches|
  {
    if aligned.matches == [] then aligned.insertions[0]
    else
      aligned.insertions[0] + Present(aligned.matches[0])
      + Reading(AlignedLines(aligned.insertions[1..], aligned.matches[1..]))
  }

  // The walk through the table, from the suffixes a of the baseline and b of the variant on.
  function Walk(a: seq<string>, b: seq<string>): (aligned: AlignedLines)
    ensures FitsBaseline(aligned, a)
    decreases |a| + |b|
  {
    if a == [] then AlignedLines([b], [])
    else if b == [] then AlignedLines(seq(|a| + 1, _ => []), seq(|a|, _ => None))
    else if a[0] == b[0] then Row([], Some(b[0]), Walk(a[1..], b[1..]))
    else if InsertsFirst(a, b) then Prepend(b[0], Walk(a, b[1..]))
    else Row([], None, Walk(a[1..], b))
  }

  // Of two different first lines, the one of the variant is placed first unless that costs a match.
  predicate InsertsFirst(a: seq<string>, b: seq<string>)
    requires a != [] && b != []
  {
    Lcs(a, b[1..]) >= Lcs(a[1..], b)
  }

  function Row(inserted: seq<string>, match0: Option<string>, rest: AlignedLines): AlignedLines {
    AlignedLines([inserted] + rest.insertions, [match0] + rest.matches)
  }

  function Prepend(line: string, rest: AlignedLines): AlignedLines
    requires rest.insertions != []
  {
    AlignedLines([[line] + rest.insertions[0]] + rest.insertions[1..], rest.matches)
  }

  // The cheaper alignment of large documents: line by line.
  function LineByLine(a: seq<string>, b: seq<string>): (aligned: AlignedLines)
    ensures FitsBaseline(aligned, a)
  {
    if a == [] then AlignedLines([b], [])
    else if b == [] then Row([], None, LineByLine(a[1..], []))
    else if a[0] == b[0] then Row([], Some(a[0]), LineByLine(a[1..], b[1..]))
    else Row([b[0]], None, LineByLine(a[1..], b[1..]))
  }

  function Align(baseline: seq<string>, variant: seq<string>): (aligned: AlignedLines)
    ensures FitsBaseline(aligned, baseline)
  {
    if |baseline| * |variant| > 250_000 then LineByLine(baseline, variant) else Walk(baseline, variant)
  }

  lemma {:induction false} ReadingOfRow(inserted: seq<string>, match0: Option<string>, rest: AlignedLines)
    requires |rest.insertions| == |rest.matches| + 1
    ensures Reading(Row(inserted, match0, rest)) == inserted + Present(match0) + Reading(rest)
    ensures Presents(Row(inserted, match0, rest).matches) == Present(match0) + Presents(rest.matches)
  {
    assert AlignedLines(([inserted] + rest.insertions)[1..], ([match0] + rest.matches)[1..]) == rest;
  }

  lemma {:induction false} ReadingOfPrepend(line: string, rest: AlignedLines)
    requires |rest.insertions| == |rest.matches| + 1
    ensures Reading(Prepend(line, rest)) == [line] + Reading(rest)
  {
    var p := Prepend(line, rest);
    assert p.insertions[1..] == rest.insertions[1..];
  }

  // The walk keeps every line of the variant, and as many matches as the table promises.
  lemma {:induction false} WalkReadsVariant(a: seq<string>, b: seq<string>)
    ensures Reading(Walk(a, b)) == b
    ensures |Presents(Walk(a, b).matches)| == Lcs(a, b)
    decreases |a| + |b|
  {
    if a == [] {
    } else if b == [] {
      var w := Walk(a, b);
      var rest := Walk(a[1..], []);
      assert w == Row([], None, rest);
      WalkReadsVariant(a[1..], []);
      ReadingOfRow([], None, rest);
    } else if a[0] == b[0] {
      WalkReadsVariant(a[1..], b[1..]);
      ReadingOfRow([], Some(b[0]), Walk(a[1..], b[1..]));
    } else if InsertsFirst(a, b) {
      WalkReadsVariant(a, b[1..]);
      ReadingOfPrepend(b[0], Walk(a, b[1..]));
    } else {
      WalkReadsVariant(a[1..], b);
      ReadingOfRow([], None, Walk(a[1..], b));
    }
  }

  lemma {:induction false} LineByLineReadsVariant(a: seq<string>, b: seq<string>)
    ensures Reading(LineByLine(a, b)) == b
    decreases |a|
  {
    if a != [] {
      var rest := LineByLine(a[1..], if b == [] then [] else b[1..]);
      LineByLineReadsVariant(a[1..], if b == [] then [] else b[1..]);
      var w := LineByLine(a, b);
      ReadingOfRow(w.insertions[0], w.matches[0], rest);
    }
  }

  // The entries of the cheaper alignment, by index.
  lemma {:induction false} LineByLineMatchAt(a: seq<string>, b: seq<string>, i: nat)
    requires i < |a|
    ensures LineByLine(a, b).matches[i] == if i < |b| && b[i] == a[i] then Some(a[i]) else None
    decreases i
  {
    if i > 0 {
      LineByLineMatchAt(a[1..], DropFirst(b), i - 1);
      assert LineByLine(a, b).matches[i] == LineByLine(a[1..], DropFirst(b)).matches[i - 1];
    }
  }

  // After its first row the cheaper alignment is that of the rest.
  lemma {:induction false} LineByLineGoesOn(a: seq<string>, b: seq<string>)
    requires a != []
    ensures LineByLine(a, b).insertions[1..] == LineByLine(a[1..], DropFirst(b)).insertions
  {
  }

  // The lines of one version before a baseline line, from the k-th on.
  function Pending(lines: seq<string>, k: nat): seq<string> {
    if k <= |lines| then lines[k..] else []
  }

  lemma {:induction false} LineByLineInsertionAt(a: seq<string>, b: seq<string>, i: nat)
    requires i <= |a|
    ensures LineByLine(a, b).insertions[i]
            == if i == |a| then Pending(b, i) else if i < |b| && b[i] != a[i] then [b[i]] else []
    decreases i
  {
    if i > 0 {
      LineByLineInsertionAt(a[1..], DropFirst(b), i - 1);
      LineByLineGoesOn(a, b);
      assert LineByLine(a, b).insertions[i] == LineByLine(a, b).insertions[1..][i - 1];
      assert Pending(DropFirst(b), i - 1) == Pending(b, i);
      assert forall k | 0 < k < |b| :: DropFirst(b)[k - 1] == b[k];
    }
  }

  function DropFirst(b: seq<string>): seq<string> {
    if b == [] then [] else b[1..]
  }

  // Both branches reconstruct the variant.
  lemma {:induction false} AlignmentReadsVariant(baseline: seq<string>, variant: seq<string>)
    ensures Reading(Align(baseline, variant)) == variant
  {
    LineByLineReadsVariant(baseline, variant);
    WalkReadsVariant(baseline, variant);
  }

  // The kept lines are a common subsequence.
  lemma {:induction false} KeptLinesAreCommon(aligned: AlignedLines, baseline: seq<string>)
    requires FitsBaseline(aligned, baseline)
    ensures IsSubsequence(Presents(aligned.matches), baseline)
    ensures IsSubsequence(Presents(aligned.matches), Reading(aligned))
    decreases |baseline|
  {
    if baseline != [] {
      var rest := AlignedLines(aligned.insertions[1..], aligned.matches[1..]);
      var kept := Presents(rest.matches);
      forall i | 0 <= i < |baseline[1..]| && rest.matches[i].Some?
        ensures rest.matches[i].value == baseline[1..][i]
      {
        assert rest.matches[i] == aligned.matches[i + 1];
      }
      KeptLinesAreCommon(rest, baseline[1..]);
      var head := Present(aligned.matches[0]);
      SubsequenceAfter(head, kept, Reading(rest));
      SubsequenceSkips(head + kept, aligned.insertions[0], head + Reading(rest));
      assert aligned.insertions[0] + (head + Reading(rest)) == Reading(aligned);
      if head == [] {
        assert head + kept == kept;
      } else {
        assert (head + kept)[1..] == kept;
      }
    }
  }

  lemma {:induction false} SubsequenceAfter(head: seq<string>, c: seq<string>, a: seq<string>)
    requires |head| <= 1 && IsSubsequence(c, a)
    ensures IsSubsequence(head + c, head + a)
  {
    if head == [] {
      assert head + c == c && head + a == a;
    } else {
      assert (head + c)[1..] == c && (head + a)[1..] == a;
    }
  }

  lemma {:induction false} SubsequenceSkips(c: seq<string>, skipped: seq<string>, a: seq<string>)
    requires IsSubsequence(c, a)
    ensures IsSubsequence(c, skipped + a)
    decreases |skipped|
  {
    if skipped == [] {
      assert skipped + a == a;
    } else {
      SubsequenceSkips(c, skipped[1..], a);
      assert (skipped + a)[1..] == skipped[1..] + a;
    }
  }

  // In the table branch the walk realises the optimum: its kept lines are a common subsequence of
  // the baseline and the variant, and none is longer.
  lemma {:induction false} WalkIsOptimal(baseline: seq<string>, variant: seq<string>)
    ensures var kept := Presents(Walk(baseline, variant).matches);
            && |kept| == Lcs(baseline, variant)
            && IsSubsequence(kept, baseline)
            && IsSubsequence(kept, variant)
            && forall c | IsSubsequence(c, baseline) && IsSubsequence(c, variant) :: |c| <= |kept|
  {
    WalkReadsVariant(baseline, variant);
    KeptLinesAreCommon(Walk(baseline, variant), baseline);
    forall c | IsSubsequence(c, baseline) && IsSubsequence(c, variant)
      ensures |c| <= Lcs(baseline, variant)
    {
      LcsIsUpperBound(c, baseline, variant);
    }
  }

  // ---------------------------------------------------------------- what the cheaper branch keeps

  // The positions at which both versions have the same line.
  function Agreeing(a: seq<string>, b: seq<string>): set<nat> {
    set i | 0 <= i < |a| && i < |b| && a[i] == b[i]
  }

  function Filled(cells: seq<Option<string>>): set<nat> {
    set i | 0 <= i < |cells| && cells[i].Some?
  }

  lemma {:induction false} PresentsSplits(a: seq<Option<string>>, b: seq<Option<string>>)
    ensures Presents(a + b) == Presents(a) + Presents(b)
  {
    if a == [] {
      assert a + b == b;
    } else {
      assert (a + b)[1..] == a[1..] + b;
      PresentsSplits(a[1..], b);
    }
  }

  lemma {:induction false} PresentsCountsFilled(cells: seq<Option<string>>)
    ensures |Presents(cells)| == |Filled(cells)|
  {
    if cells != [] {
      var n := |cells| - 1;
      PresentsCountsFilled(cells[..n]);
      assert cells == cells[..n] + [cells[n]];
      PresentsSplits(cells[..n], [cells[n]]);
      assert Filled(cells) == Filled(cells[..n]) + if cells[n].Some? then {n} else {};
    }
  }

  // Line by line, exactly the lines are kept that stand at the same position in both versions.
  lemma {:induction false} LineByLineKeepsAgreeing(a: seq<string>, b: seq<string>)
    ensures |Presents(LineByLine(a, b).matches)| == |Agreeing(a, b)|
  {
    var matches := LineByLine(a, b).matches;
    forall i: nat | i < |a|
      ensures i in Filled(matches) <==> i in Agreeing(a, b)
    {
      LineByLineMatchAt(a, b, i);
    }
    assert Filled(matches) == Agreeing(a, b);
    PresentsCountsFilled(matches);
  }

  // An alignment keeps as many lines as possible exactly when the table is small enough or the
  // longest common subsequence has as many lines as agree by position.
  lemma {:induction false} AlignIsOptimalIff(baseline: seq<string>, variant: seq<string>)
    ensures |Presents(Align(baseline, variant).matches)| == Lcs(baseline, variant)
            <==> (|baseline| * |variant| <= 250_000 || |Agreeing(baseline, variant)| == Lcs(baseline, variant))
  {
    if |baseline| * |variant| > 250_000 {
      LineByLineKeepsAgreeing(baseline, variant);
    } else {
      WalkReadsVariant(baseline, variant);
    }
  }

  lemma {:induction false} SubsequenceOfItself(s: seq<string>)
    ensures IsSubsequence(s, s)
  {
    if s != [] {
      SubsequenceOfItself(s[1..]);
    }
  }

  // The cheaper branch can give everything up: deleting the first line of a large document in which
  // no line repeats the one before it keeps no line, although all lines but the first are common.
  lemma {:induction false} DeletedFirstLineKeepsNothing(first: string, rest: seq<string>)
    requires forall i | 0 < i < |rest| + 1 :: ([first] + rest)[i] != ([first] + rest)[i - 1]
    requires |[first] + rest| * |rest| > 250_000
    ensures Presents(Align([first] + rest, rest).matches) == []
    ensures Lcs([first] + rest, rest) == |rest|
  {
    var baseline := [first] + rest;
    forall i: nat | i < |rest|
      ensures i !in Agreeing(baseline, rest)
    {
      assert baseline[i + 1] == rest[i];
      assert baseline[i + 1] != baseline[i + 1 - 1];
    }
    assert Agreeing(baseline, rest) == {};
    LineByLineKeepsAgreeing(baseline, rest);
    SubsequenceOfItself(rest);
    assert baseline[1..] == rest;
    assert IsSubsequence(rest, baseline);
    LcsIsUpperBound(rest, baseline, rest);
    LcsIsAtMost(baseline, rest);
  }

  lemma {:induction false} LcsIsAtMost(a: seq<string>, b: seq<string>)
    ensures Lcs(a, b) <= |b|
    decreases |a| + |b|
  {
    if a != [] && b != [] {
      if a[0] == b[0] {
        LcsIsAtMost(a[1..], b[1..]);
      } else {
        LcsIsAtMost(a[1..], b);
        LcsIsAtMost(a, b[1..]);
      }
    }
  }

  // Documents of any size above the limit are such documents: two lines that alternate.
  lemma {:induction false} AlternatingLinesKeepNothing(n: nat)
    requires n >= 500
    ensures var rest := seq(n, i => if i % 2 == 0 then "a" else "b");
            && Presents(Align(["b"] + rest, rest).matches) == []
            && Lcs(["b"] + rest, rest) == n
  {
    var rest := seq(n, i => if i % 2 == 0 then "a" else "b");
    assert (n + 1) * n >= 501 * 500;
    DeletedFirstLineKeepsNothing("b", rest);
  }

  // ---------------------------------------------------------------- which alignment it is

  // A document aligned with itself keeps every line, in both branches.
  lemma {:induction false} AlignmentWithItself(a: seq<string>)
    ensures forall i | 0 <= i <= |a| :: Align(a, a).insertions[i] == []
    ensures forall i | 0 <= i < |a| :: Align(a, a).matches[i] == Some(a[i])
  {
    WalkWithItself(a);
    forall i | 0 <= i <= |a|
      ensures LineByLine(a, a).insertions[i] == []
      ensures i < |a| ==> LineByLine(a, a).matches[i] == Some(a[i])
    {
      LineByLineInsertionAt(a, a, i);
      if i < |a| {
        LineByLineMatchAt(a, a, i);
      }
    }
  }

  lemma {:induction false} WalkWithItself(a: seq<string>)
    ensures forall i | 0 <= i <= |a| :: Walk(a, a).insertions[i] == []
    ensures forall i | 0 <= i < |a| :: Walk(a, a).matches[i] == Some(a[i])
  {
    if a != [] {
      WalkWithItself(a[1..]);
    }
  }

  lemma {:induction false} LcsDrops(a: seq<string>, b: seq<string>)
    ensures a != [] ==> Lcs(a[1..], b) <= Lcs(a, b) <= Lcs(a[1..], b) + 1
    ensures b != [] ==> Lcs(a, b[1..]) <= Lcs(a, b) <= Lcs(a, b[1..]) + 1
    decreases |a| + |b|
  {
    if a != [] && b != [] {
      LcsDrops(a[1..], b[1..]);
      LcsDrops(a[1..], b);
      LcsDrops(a, b[1..]);
    }
  }

  // The first line is kept and costs nothing: the rest is aligned as without it.
  lemma {:induction false} WalkKeepsNeeded(a: seq<string>, b: seq<string>)
    requires a != [] && Lcs(a, b) == Lcs(a[1..], b) + 1
    ensures Walk(a, b).matches == [Some(a[0])] + Walk(a[1..], b).matches
    decreases |a| + |b|, 0
  {
    LcsDrops(a, b);
    if a[0] == b[0] {
      WalkDropsIdle(a[1..], b);
    } else {
      LcsDrops(a, b[1..]);
      LcsDrops(a[1..], b);
      WalkKeepsNeeded(a, b[1..]);
      WalkDropsIdle(a[1..], b);
    }
  }

  // A first line of the variant that is not needed makes no difference.
  lemma {:induction false} WalkDropsIdle(a: seq<string>, b: seq<string>)
    requires b != [] && Lcs(a, b) == Lcs(a, b[1..])
    ensures Walk(a, b).matches == Walk(a, b[1..]).matches
    decreases |a| + |b|, 1
  {
    LcsDrops(a, b);
    if a != [] && a[0] == b[0] {
      WalkKeepsNeeded(a, b[1..]);
    }
  }

  // A first line that is not kept makes no difference.
  lemma {:induction false} WalkDropsUnkept(a: seq<string>, b: seq<string>)
    requires a != [] && Walk(a, b).matches[0].None?
    ensures Lcs(a, b) == Lcs(a[1..], b)
    ensures Walk(a, b).matches[1..] == Walk(a[1..], b).matches
    decreases |b|
  {
    LcsDrops(a, b);
    if Lcs(a, b) != Lcs(a[1..], b) {
      WalkKeepsNeeded(a, b);
    }
    if b != [] && InsertsFirst(a, b) {
      WalkDropsUnkept(a, b[1..]);
      WalkDropsIdle(a[1..], b);
    }
  }

  // The lines that a choice of positions selects.
  function Selected(a: seq<string>, chosen: seq<bool>): seq<string>
    requires |chosen| == |a|
  {
    if a == [] then [] else (if chosen[0] then [a[0]] else []) + Selected(a[1..], chosen[1..])
  }

  // The walk keeps the first line when some longest common subsequence has it.
  lemma {:induction false} WalkKeepsFirst(a: seq<string>, b: seq<string>, c: seq<string>)
    requires a != [] && IsSubsequence([a[0]] + c, a) && IsSubsequence([a[0]] + c, b) && |c| + 1 == Lcs(a, b)
    ensures Walk(a, b).matches[0].Some?
    decreases |b|
  {
    if a[0] != b[0] {
      LcsIsUpperBound([a[0]] + c, a, b[1..]);
      LcsDrops(a, b);
      WalkKeepsFirst(a, b[1..], c);
    }
  }

  // Of all choices of as many common lines, the walk keeps the one whose lines come first: where it
  // first differs from another choice, it is the walk that keeps the line.
  lemma {:induction false} WalkKeepsEarliest(a: seq<string>, b: seq<string>, chosen: seq<bool>, i: nat)
    requires |chosen| == |a| && i < |a|
    requires IsSubsequence(Selected(a, chosen), b) && |Selected(a, chosen)| == Lcs(a, b)
    requires forall j | 0 <= j < i :: chosen[j] <==> Walk(a, b).matches[j].Some?
    requires chosen[i] <==> Walk(a, b).matches[i].None?
    ensures Walk(a, b).matches[i].Some?
    decreases |a| + |b|
  {
    var c := Selected(a[1..], chosen[1..]);
    SelectedIsCommon(a, chosen);
    SelectedIsCommon(a[1..], chosen[1..]);
    if chosen[0] {
      assert Selected(a, chosen) == [a[0]] + c;
      WalkKeepsFirst(a, b, c);
      if i > 0 {
        SelectedRest(a, b, chosen, i);
      }
    } else if i > 0 {
      WalkDropsUnkept(a, b);
      assert Selected(a, chosen) == c;
      forall j | 0 <= j < i
        ensures Walk(a, b).matches[j + 1] == Walk(a[1..], b).matches[j]
      {
        assert Walk(a, b).matches[1..][j] == Walk(a, b).matches[j + 1];
      }
      WalkKeepsEarliest(a[1..], b, chosen[1..], i - 1);
    }
  }

  lemma {:induction false} SelectedIsCommon(a: seq<string>, chosen: seq<bool>)
    requires |chosen| == |a|
    ensures IsSubsequence(Selected(a, chosen), a)
  {
    if a != [] {
      var c := Selected(a[1..], chosen[1..]);
      SelectedIsCommon(a[1..], chosen[1..]);
      if chosen[0] {
        assert Selected(a, chosen)[1..] == c;
      } else {
        assert Selected(a, chosen) == c;
      }
    }
  }

  // Behind a first line that both keep.
  lemma {:induction false} SelectedRest(a: seq<string>, b: seq<string>, chosen: seq<bool>, i: nat)
    requires |chosen| == |a| && 0 < i < |a| && chosen[0]
    requires IsSubsequence(Selected(a, chosen), b) && |Selected(a, chosen)| == Lcs(a, b)
    requires forall j | 0 <= j < i :: chosen[j] <==> Walk(a, b).matches[j].Some?
    requires chosen[i] <==> Walk(a, b).matches[i].None?
    ensures Walk(a, b).matches[i].Some?
    decreases |a| + |b|, 0
  {
    var selected := Selected(a, chosen);
    assert selected == [a[0]] + Selected(a[1..], chosen[1..]);
    SelectedIsCommon(a, chosen);
    if a[0] == b[0] {
      SubsequenceTails(selected, b);
      assert selected[1..] == Selected(a[1..], chosen[1..]);
      WalkKeepsEarliest(a[1..], b[1..], chosen[1..], i - 1);
    } else {
      LcsIsUpperBound(selected, a, b[1..]);
      LcsDrops(a, b);
      WalkKeepsEarliest(a, b[1..], chosen, i);
    }
  }

  // Insertions stand at the start or directly behind a kept line: lines of the baseline that are deleted
  // follow the insertions.
  lemma {:induction false} InsertionsFollowKept(a: seq<string>, b: seq<string>, i: nat)
    requires i <= |a| && Walk(a, b).insertions[i] != []
    ensures i == 0 || Walk(a, b).matches[i - 1].Some?
    decreases |a| + |b|
  {
    if i > 0 && b != [] {
      if a[0] == b[0] {
        InsertionsFollowOf(a, b[1..], i);
      } else if InsertsFirst(a, b) {
        InsertionsFollowKept(a, b[1..], i);
      } else {
        LcsDrops(a, b[1..]);
        DeletionEndsAtMatch(a[1..], b);
        InsertionsFollowOf(a, b, i);
      }
    }
  }

  lemma {:induction false} InsertionsFollowOf(a: seq<string>, b: seq<string>, i: nat)
    requires 0 < i <= |a| && Walk(a[1..], b).insertions[i - 1] != []
    ensures i == 1 || Walk(a[1..], b).matches[i - 2].Some?
    decreases |a| + |b|, 0
  {
    InsertionsFollowKept(a[1..], b, i - 1);
  }

  // Without its first line the variant has less in common: so that line is kept, not inserted.
  lemma {:induction false} DeletionEndsAtMatch(a: seq<string>, b: seq<string>)
    requires b != [] && Lcs(a, b) > Lcs(a, b[1..])
    ensures Walk(a, b).insertions[0] == []
  {
    LcsDrops(a, b);
  }

  // ---------------------------------------------------------------- the imperative alignment

  method FillLengths(baseline: seq<string>, variant: seq<string>) returns (lengths: array2<nat>)
    ensures fresh(lengths)
    ensures Tabulates(lengths, baseline, variant)
  {
    lengths := new nat[|baseline| + 1, |variant| + 1]((_, _) => 0);
    var left := |baseline|;
    while left > 0
      invariant 0 <= left <= |baseline|
      invariant forall i, j | left <= i <= |baseline| && 0 <= j <= |variant| ::
                  lengths[i, j] == Lcs(baseline[i..], variant[j..])
      invariant forall i, j | 0 <= i < left && 0 <= j <= |variant| :: lengths[i, j] == 0
    {
      left := left - 1;
      var right := |variant|;
      while right > 0
        invariant 0 <= right <= |variant|
        invariant forall i, j | left < i <= |baseline| && 0 <= j <= |variant| ::
                    lengths[i, j] == Lcs(baseline[i..], variant[j..])
        invariant forall j | right <= j <= |variant| :: lengths[left, j] == Lcs(baseline[left..], variant[j..])
        invariant forall i, j | 0 <= i < left && 0 <= j <= |variant| :: lengths[i, j] == 0
      {
        right := right - 1;
        assert baseline[left..][1..] == baseline[left + 1..] && variant[right..][1..] == variant[right + 1..];
        lengths[left, right] :=
          if baseline[left] == variant[right] then lengths[left + 1, right + 1] + 1
          else Max(lengths[left + 1, right], lengths[left, right + 1]);
      }
    }
  }

  // What is final before `left`, followed by the walk of the rest.
  ghost function Resume(insertions: seq<seq<string>>, matches: seq<Option<string>>, left: nat,
                        rest: AlignedLines): AlignedLines
    requires left < |insertions| && left <= |matches| && rest.insertions != []
  {
    AlignedLines(insertions[..left] + [insertions[left] + rest.insertions[0]] + rest.insertions[1..],
                 matches[..left] + rest.matches)
  }

  // The arrays hold the walk up to `left` and nothing beyond; the walk of the rest completes them.
  ghost predicate WalkedTo(baseline: seq<string>, variant: seq<string>, left: nat, right: nat,
                           insertions: seq<seq<string>>, matches: seq<Option<string>>) {
    && left <= |baseline| && right <= |variant|
    && |insertions| == |baseline| + 1 && |matches| == |baseline|
    && (forall i | left < i <= |baseline| :: insertions[i] == [])
    && (forall i | left <= i < |baseline| :: matches[i] == None)
    && Resume(insertions, matches, left, Walk(baseline[left..], variant[right..])) == Walk(baseline, variant)
  }

  method AlignByTable(baseline: seq<string>, variant: seq<string>) returns (aligned: AlignedLines)
    ensures aligned == Walk(baseline, variant)
  {
    var lengths := FillLengths(baseline, variant);
    aligned := WalkTable(baseline, variant, lengths);
  }

  ghost predicate Tabulates(lengths: array2<nat>, baseline: seq<string>, variant: seq<string>)
    reads lengths
  {
    && lengths.Length0 == |baseline| + 1 && lengths.Length1 == |variant| + 1
    && forall i, j {:trigger lengths[i, j]} | 0 <= i <= |baseline| && 0 <= j <= |variant| ::
         lengths[i, j] == Lcs(baseline[i..], variant[j..])
  }

  // The two loops of the walk: first both files, then what remains of the variant.
  method WalkTable(baseline: seq<string>, variant: seq<string>, lengths: array2<nat>) returns (aligned: AlignedLines)
    requires Tabulates(lengths, baseline, variant)
    ensures aligned == Walk(baseline, variant)
  {
    var left, right, insertions, matches := WalkBoth(baseline, variant, lengths);
    while right < |variant|
      invariant WalkedTo(baseline, variant, left, right, insertions, matches)
      invariant right < |variant| ==> left == |baseline|
    {
      WalkAppends(baseline, variant, right, insertions, matches);
      insertions := insertions[|baseline| := insertions[|baseline|] + [variant[right]]];
      right := right + 1;
    }
    WalkEnds(baseline, variant, left, insertions, matches);
    aligned := AlignedLines(insertions, matches);
  }

  method ReadTable(baseline: seq<string>, variant: seq<string>, lengths: array2<nat>, left: nat, right: nat)
    returns (insertsFirst: bool)
    requires Tabulates(lengths, baseline, variant) && left < |baseline| && right < |variant|
    ensures insertsFirst == InsertsFirst(baseline[left..], variant[right..])
  {
    insertsFirst := lengths[left, right + 1] >= lengths[left + 1, right];
    assert baseline[left..][1..] == baseline[left + 1..] && variant[right..][1..] == variant[right + 1..];
  }

  method WalkBoth(baseline: seq<string>, variant: seq<string>, lengths: array2<nat>)
    returns (left: nat, right: nat, insertions: seq<seq<string>>, matches: seq<Option<string>>)
    requires Tabulates(lengths, baseline, variant)
    ensures WalkedTo(baseline, variant, left, right, insertions, matches)
    ensures left == |baseline| || right == |variant|
  {
    insertions := seq(|baseline| + 1, _ => []);
    matches := seq(|baseline|, _ => None);
    left, right := 0, 0;
    WalkStarts(baseline, variant, insertions, matches);
    while left < |baseline| && right < |variant|
      invariant WalkedTo(baseline, variant, left, right, insertions, matches)
      decreases |baseline| + |variant| - left - right
    {
      left, right, insertions, matches := WalkStep(baseline, variant, lengths, left, right, insertions, matches);
    }
  }

  method WalkStep(baseline: seq<string>, variant: seq<string>, lengths: array2<nat>, left: nat, right: nat,
                  insertions: seq<seq<string>>, matches: seq<Option<string>>)
    returns (left': nat, right': nat, insertions': seq<seq<string>>, matches': seq<Option<string>>)
    requires Tabulates(lengths, baseline, variant)
    requires WalkedTo(baseline, variant, left, right, insertions, matches) && left < |baseline| && right < |variant|
    ensures WalkedTo(baseline, variant, left', right', insertions', matches')
    ensures left + right < left' + right'
  {
    left', right', insertions', matches' := left, right, insertions, matches;
    var insertsFirst := ReadTable(baseline, variant, lengths, left, right);
    if baseline[left] == variant[right] {
      WalkKeeps(baseline, variant, left, right, insertions, matches);
      matches' := matches[left := Some(variant[right])];
      left', right' := left + 1, right + 1;
    } else if insertsFirst {
      WalkInserts(baseline, variant, left, right, insertions, matches);
      insertions' := insertions[left := insertions[left] + [variant[right]]];
      right' := right + 1;
    } else {
      WalkDeletes(baseline, variant, left, right, insertions, matches);
      left' := left + 1;
    }
  }

  lemma {:induction false} WalkStarts(baseline: seq<string>, variant: seq<string>, insertions: seq<seq<string>>,
                                      matches: seq<Option<string>>)
    requires |insertions| == |baseline| + 1 && |matches| == |baseline|
    requires forall i | 0 <= i <= |baseline| :: insertions[i] == []
    requires forall i | 0 <= i < |baseline| :: matches[i] == None
    ensures WalkedTo(baseline, variant, 0, 0, insertions, matches)
  {
    assert variant[0..] == variant && baseline[0..] == baseline;
    ResumeFromStart(insertions, matches, Walk(baseline, variant));
  }

  lemma {:induction false} WalkKeeps(baseline: seq<string>, variant: seq<string>, left: nat, right: nat,
                                     insertions: seq<seq<string>>, matches: seq<Option<string>>)
    requires WalkedTo(baseline, variant, left, right, insertions, matches)
    requires left < |baseline| && right < |variant| && baseline[left] == variant[right]
    ensures WalkedTo(baseline, variant, left + 1, right + 1, insertions, matches[left := Some(variant[right])])
  {
    assert baseline[left..][1..] == baseline[left + 1..] && variant[right..][1..] == variant[right + 1..];
    ResumeKeeps(insertions, matches, left, Some(variant[right]), Walk(baseline[left + 1..], variant[right + 1..]));
  }

  lemma {:induction false} WalkInserts(baseline: seq<string>, variant: seq<string>, left: nat, right: nat,
                                       insertions: seq<seq<string>>, matches: seq<Option<string>>)
    requires WalkedTo(baseline, variant, left, right, insertions, matches)
    requires left < |baseline| && right < |variant| && baseline[left] != variant[right]
    requires InsertsFirst(baseline[left..], variant[right..])
    ensures WalkedTo(baseline, variant, left, right + 1, insertions[left := insertions[left] + [variant[right]]],
                     matches)
  {
    assert baseline[left..][1..] == baseline[left + 1..] && variant[right..][1..] == variant[right + 1..];
    ResumeInserts(insertions, matches, left, variant[right], Walk(baseline[left..], variant[right + 1..]));
  }

  lemma {:induction false} WalkDeletes(baseline: seq<string>, variant: seq<string>, left: nat, right: nat,
                                       insertions: seq<seq<string>>, matches: seq<Option<string>>)
    requires WalkedTo(baseline, variant, left, right, insertions, matches)
    requires left < |baseline| && right < |variant| && baseline[left] != variant[right]
    requires !InsertsFirst(baseline[left..], variant[right..])
    ensures WalkedTo(baseline, variant, left + 1, right, insertions, matches)
  {
    assert baseline[left..][1..] == baseline[left + 1..] && variant[right..][1..] == variant[right + 1..];
    ResumeKeeps(insertions, matches, left, None, Walk(baseline[left + 1..], variant[right..]));
    assert matches[left := None] == matches;
  }

  lemma {:induction false} WalkAppends(baseline: seq<string>, variant: seq<string>, right: nat,
                                       insertions: seq<seq<string>>, matches: seq<Option<string>>)
    requires WalkedTo(baseline, variant, |baseline|, right, insertions, matches) && right < |variant|
    ensures WalkedTo(baseline, variant, |baseline|, right + 1,
                     insertions[|baseline| := insertions[|baseline|] + [variant[right]]], matches)
  {
    ResumeInserts(insertions, matches, |baseline|, variant[right], Walk([], variant[right + 1..]));
    assert variant[right..] == [variant[right]] + variant[right + 1..];
  }

  lemma {:induction false} WalkEnds(baseline: seq<string>, variant: seq<string>, left: nat,
                                    insertions: seq<seq<string>>, matches: seq<Option<string>>)
    requires WalkedTo(baseline, variant, left, |variant|, insertions, matches)
    ensures AlignedLines(insertions, matches) == Walk(baseline, variant)
  {
    var rest := Walk(baseline[left..], variant[|variant|..]);
    assert insertions[left] + [] == insertions[left];
    assert insertions == insertions[..left] + [insertions[left]] + rest.insertions[1..];
    assert matches == matches[..left] + rest.matches;
  }

  lemma {:induction false} ResumeFromStart(insertions: seq<seq<string>>, matches: seq<Option<string>>,
                                           rest: AlignedLines)
    requires insertions != [] && insertions[0] == [] && rest.insertions != []
    ensures Resume(insertions, matches, 0, rest) == rest
  {
    assert insertions[..0] == [] && matches[..0] == [];
    assert insertions[0] + rest.insertions[0] == rest.insertions[0];
    assert rest.insertions == [rest.insertions[0]] + rest.insertions[1..];
  }

  lemma {:induction false} ResumeKeeps(insertions: seq<seq<string>>, matches: seq<Option<string>>, left: nat,
                                       match0: Option<string>, rest: AlignedLines)
    requires left + 1 < |insertions| && left < |matches| && rest.insertions != [] && insertions[left + 1] == []
    ensures Resume(insertions, matches, left, Row([], match0, rest))
            == Resume(insertions, matches[left := match0], left + 1, rest)
  {
    assert insertions[left] + [] == insertions[left];
    assert insertions[left + 1] + rest.insertions[0] == rest.insertions[0];
    assert insertions[..left + 1] == insertions[..left] + [insertions[left]];
    assert rest.insertions == [rest.insertions[0]] + rest.insertions[1..];
    assert Row([], match0, rest).insertions[1..] == rest.insertions;
    assert matches[left := match0][..left + 1] == matches[..left] + [match0];
  }

  lemma {:induction false} ResumeInserts(insertions: seq<seq<string>>, matches: seq<Option<string>>, left: nat,
                                         line: string, rest: AlignedLines)
    requires left < |insertions| && left <= |matches| && rest.insertions != []
    ensures Resume(insertions, matches, left, Prepend(line, rest))
            == Resume(insertions[left := insertions[left] + [line]], matches, left, rest)
  {
    assert insertions[left] + ([line] + rest.insertions[0]) == insertions[left] + [line] + rest.insertions[0];
    assert Prepend(line, rest).insertions[1..] == rest.insertions[1..];
  }

  method AlignLargeDocument(baseline: seq<string>, variant: seq<string>) returns (aligned: AlignedLines)
    ensures aligned == LineByLine(baseline, variant)
  {
    var insertions: seq<seq<string>> := seq(|baseline| + 1, _ => []);
    var matches := seq(|baseline|, i requires 0 <= i < |baseline| =>
      if i < |variant| && variant[i] == baseline[i] then Some(baseline[i]) else None);
    for index := 0 to |variant|
      invariant |insertions| == |baseline| + 1
      invariant forall i | 0 <= i < |baseline| ::
                  insertions[i] == if i < index && matches[i].None? then [variant[i]] else []
      invariant insertions[|baseline|] == if |baseline| <= index then variant[|baseline|..index] else []
    {
      if index >= |baseline| || matches[index].None? {
        var place := if index < |baseline| then index else |baseline|;
        insertions := insertions[place := insertions[place] + [variant[index]]];
      }
    }
    aligned := AlignedLines(insertions, matches);
    forall i | 0 <= i <= |baseline|
      ensures insertions[i] == LineByLine(baseline, variant).insertions[i]
      ensures i < |baseline| ==> matches[i] == LineByLine(baseline, variant).matches[i]
    {
      LineByLineInsertionAt(baseline, variant, i);
      if i < |baseline| {
        LineByLineMatchAt(baseline, variant, i);
      }
    }
    assert aligned.insertions == LineByLine(baseline, variant).insertions;
    assert aligned.matches == LineByLine(baseline, variant).matches;
  }

  method AlignToBaseline(baseline: seq<string>, variant: seq<string>) returns (aligned: AlignedLines)
    ensures aligned == Align(baseline, variant)
  {
    if |baseline| * |variant| > 250_000 {
      aligned := AlignLargeDocument(baseline, variant);
    } else {
      aligned := AlignByTable(baseline, variant);
    }
  }
}
