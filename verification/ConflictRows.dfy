// The rows that show the three versions of a note side by side (frontend/src/editorConflict.ts).
module ConflictRows {
  import opened Options
  import opened Numerals
  import opened EditorConflict

  datatype ConflictLine = ConflictLine(
    line: string,
    status: string,
    changed: bool,
    editingStarted: Option<string>,
    editing: Option<string>,
    current: Option<string>)

  function Cell(lines: seq<string>, k: nat): Option<string> {
    if k < |lines| then Some(lines[k]) else None
  }

  function InsertionRow(editing: Option<string>, current: Option<string>): ConflictLine {
    ConflictLine(
      "追加",
      if editing.Some? && current.Some? then "編集中と現在の内容に追加"
      else if editing.Some? then "編集中に追加"
      else "現在の内容に追加",
      true, None, editing, current)
  }

  function BaselineRow(index: nat, line: string, editing: Option<string>, current: Option<string>): ConflictLine {
    ConflictLine(
      Decimal(index + 1),
      if editing.None? && current.None? then "編集中から削除、現在の内容から削除"
      else if editing.None? then "編集中から削除"
      else if current.None? then "現在の内容から削除"
      else "変更なし",
      editing.None? || current.None?, Some(line), editing, current)
  }

  // The rows of the insertions before one baseline line, from the k-th on.
  function InsertionRows(editing: seq<string>, current: seq<string>, k: nat): seq<ConflictLine>
    decreases |editing| + |current| - k
  {
    if k >= |editing| && k >= |current| then []
    else [InsertionRow(Cell(editing, k), Cell(current, k))] + InsertionRows(editing, current, k + 1)
  }

  // All rows from baseline line i on.
  function Rows(baseline: seq<string>, editing: AlignedLines, current: AlignedLines, i: nat): seq<ConflictLine>
    requires FitsBaseline(editing, baseline) && FitsBaseline(current, baseline) && i <= |baseline|
    decreases |baseline| - i
  {
    InsertionRows(editing.insertions[i], current.insertions[i], 0)
    + if i == |baseline| then []
      else
        [BaselineRow(i, baseline[i], editing.matches[i], current.matches[i])]
        + Rows(baseline, editing, current, i + 1)
  }

  lemma {:induction false} RowsGoOn(baseline: seq<string>, editing: AlignedLines, current: AlignedLines, i: nat,
                                    inserted: seq<ConflictLine>, row: ConflictLine)
    requires FitsBaseline(editing, baseline) && FitsBaseline(current, baseline) && i < |baseline|
    requires inserted == InsertionRows(editing.insertions[i], current.insertions[i], 0)
    requires row == BaselineRow(i, baseline[i], editing.matches[i], current.matches[i])
    ensures Rows(baseline, editing, current, i) == inserted + ([row] + Rows(baseline, editing, current, i + 1))
  {
  }

  lemma {:induction false} RowsEnd(baseline: seq<string>, editing: AlignedLines, current: AlignedLines)
    requires FitsBaseline(editing, baseline) && FitsBaseline(current, baseline)
    ensures Rows(baseline, editing, current, |baseline|)
            == InsertionRows(editing.insertions[|baseline|], current.insertions[|baseline|], 0)
  {
    var last := InsertionRows(editing.insertions[|baseline|], current.insertions[|baseline|], 0);
    assert last + [] == last;
  }

  // ---------------------------------------------------------------- which cells share a row

  // How many rows stand between the lines of the baseline before line i.
  function InsertionCount(editing: AlignedLines, current: AlignedLines, i: nat): nat
    requires i < |editing.insertions| && i < |current.insertions|
  {
    Max(|editing.insertions[i]|, |current.insertions[i]|)
  }

  // The position of the first row that belongs to baseline line i or to an insertion before it.
  function GroupStart(editing: AlignedLines, current: AlignedLines, i: nat): nat
    requires i <= |editing.insertions| && i <= |current.insertions|
  {
    if i == 0 then 0 else GroupStart(editing, current, i - 1) + InsertionCount(editing, current, i - 1) + 1
  }

  // In the rows of two lists of insertions side by side, which begin at position start, the k-th.
  ghost predicate PairsInsertions(rows: seq<ConflictLine>, start: int, editing: seq<string>, current: seq<string>,
                                  k: nat)
  {
    && 0 <= start && start + k < |rows|
    && var row := rows[start + k];
    && row.line == "追加" && row.changed && row.editingStarted == None
    && row.editing == (if k < |editing| then Some(editing[k]) else None)
    && row.current == (if k < |current| then Some(current[k]) else None)
    && row.status == (if k >= |current| then "編集中に追加"
                          else if k >= |editing| then "現在の内容に追加"
                          else "編集中と現在の内容に追加")
  }

  // The row at position r shows baseline line i beside the lines that keep it.
  ghost predicate ShowsBaseline(rows: seq<ConflictLine>, r: int, i: nat, line: string, editing: Option<string>,
                                current: Option<string>) {
    && 0 <= r < |rows|
    && rows[r].line == Decimal(i + 1) && rows[r].editingStarted == Some(line)
    && rows[r].editing == editing && rows[r].current == current
    && (rows[r].changed <==> !(editing.Some? && current.Some?))
    && rows[r].status == (match (editing, current)
                          case (Some(_), Some(_)) => "変更なし"
                          case (None, Some(_)) => "編集中から削除"
                          case (Some(_), None) => "現在の内容から削除"
                          case (None, None) => "編集中から削除、現在の内容から削除")
  }

  // Of rows that begin with those of baseline line i: those of line j.
  ghost predicate GroupIsMerged(rows: seq<ConflictLine>, baseline: seq<string>, editing: AlignedLines,
                                current: AlignedLines, i: nat, j: nat)
    requires FitsBaseline(editing, baseline) && FitsBaseline(current, baseline) && i <= |baseline| && j <= |baseline|
  {
    var r, count := GroupStart(editing, current, j) - GroupStart(editing, current, i),
                    InsertionCount(editing, current, j);
    && (forall k: nat | k < count ::
          PairsInsertions(rows, r, editing.insertions[j], current.insertions[j], k))
    && (j < |baseline| ==>
          ShowsBaseline(rows, r + count, j, baseline[j], editing.matches[j], current.matches[j]))
  }

  // The rows, from those of baseline line i on, are the two alignments side by side.
  ghost predicate MergesFrom(rows: seq<ConflictLine>, baseline: seq<string>, editing: AlignedLines,
                             current: AlignedLines, i: nat)
    requires FitsBaseline(editing, baseline) && FitsBaseline(current, baseline) && i <= |baseline|
  {
    && |rows| + 1 == GroupStart(editing, current, |baseline| + 1) - GroupStart(editing, current, i)
    && forall j | i <= j <= |baseline| :: GroupIsMerged(rows, baseline, editing, current, i, j)
  }

  lemma {:induction false} InsertionRowAt(editing: seq<string>, current: seq<string>, k: nat, n: nat)
    requires k <= n < Max(|editing|, |current|)
    ensures |InsertionRows(editing, current, k)| == Max(|editing|, |current|) - k
    ensures InsertionRows(editing, current, k)[n - k] == InsertionRow(Cell(editing, n), Cell(current, n))
    decreases n - k
  {
    InsertionRowsLength(editing, current, k);
    if k < n {
      InsertionRowAt(editing, current, k + 1, n);
    }
  }

  lemma {:induction false} InsertionRowsLength(editing: seq<string>, current: seq<string>, k: nat)
    requires k <= Max(|editing|, |current|)
    ensures |InsertionRows(editing, current, k)| == Max(|editing|, |current|) - k
    decreases |editing| + |current| - k
  {
    if k < Max(|editing|, |current|) {
      InsertionRowsLength(editing, current, k + 1);
    }
  }

  lemma {:induction false} InsertionsArePaired(editing: seq<string>, current: seq<string>, rest: seq<ConflictLine>,
                                               k: nat)
    requires k < Max(|editing|, |current|)
    ensures PairsInsertions(InsertionRows(editing, current, 0) + rest, 0, editing, current, k)
  {
    InsertionRowAt(editing, current, 0, k);
  }

  // Putting rows in front of others moves each by their number.
  lemma {:induction false} RowsMove(front: seq<ConflictLine>, rows: seq<ConflictLine>, r: nat)
    requires r < |rows|
    ensures (front + rows)[r + |front|] == rows[r]
  {
  }

  // The rows hold each baseline line once, in order, beside the lines that keep it, and before each the
  // insertions of both versions side by side.
  lemma {:induction false} RowsMerge(baseline: seq<string>, editing: AlignedLines, current: AlignedLines, i: nat)
    requires FitsBaseline(editing, baseline) && FitsBaseline(current, baseline) && i <= |baseline|
    ensures MergesFrom(Rows(baseline, editing, current, i), baseline, editing, current, i)
    decreases |baseline| - i
  {
    var inserted := InsertionRows(editing.insertions[i], current.insertions[i], 0);
    InsertionRowsLength(editing.insertions[i], current.insertions[i], 0);
    if i == |baseline| {
      assert Rows(baseline, editing, current, i) == inserted == inserted + [];
      forall k: nat | k < InsertionCount(editing, current, i)
        ensures PairsInsertions(inserted + [], 0, editing.insertions[i], current.insertions[i], k)
      {
        InsertionsArePaired(editing.insertions[i], current.insertions[i], [], k);
      }
    } else {
      var rest := Rows(baseline, editing, current, i + 1);
      RowsMerge(baseline, editing, current, i + 1);
      MergesBefore(rest, baseline, editing, current, i);
    }
  }

  lemma {:induction false} MergesBefore(rest: seq<ConflictLine>, baseline: seq<string>, editing: AlignedLines,
                                        current: AlignedLines, i: nat)
    requires FitsBaseline(editing, baseline) && FitsBaseline(current, baseline) && i < |baseline|
    requires MergesFrom(rest, baseline, editing, current, i + 1)
    ensures var row := BaselineRow(i, baseline[i], editing.matches[i], current.matches[i]);
            MergesFrom(InsertionRows(editing.insertions[i], current.insertions[i], 0) + ([row] + rest), baseline,
                       editing, current, i)
  {
    var inserted := InsertionRows(editing.insertions[i], current.insertions[i], 0);
    InsertionRowsLength(editing.insertions[i], current.insertions[i], 0);
    var row := BaselineRow(i, baseline[i], editing.matches[i], current.matches[i]);
    var rows, front, start := inserted + ([row] + rest), inserted + [row], GroupStart(editing, current, i);
    assert rows == front + rest;
    forall j | i <= j <= |baseline|
      ensures GroupIsMerged(rows, baseline, editing, current, i, j)
    {
      if j > i {
        assert GroupIsMerged(rest, baseline, editing, current, i + 1, j);
        GroupMoves(rest, front, baseline, editing, current, i, j);
      } else {
        forall k: nat | k < InsertionCount(editing, current, i)
          ensures PairsInsertions(rows, 0, editing.insertions[i], current.insertions[i], k)
        {
          InsertionsArePaired(editing.insertions[i], current.insertions[i], [row] + rest, k);
        }
      }
    }
  }

  lemma {:induction false} GroupMoves(rest: seq<ConflictLine>, front: seq<ConflictLine>, baseline: seq<string>,
                                      editing: AlignedLines, current: AlignedLines, i: nat, j: nat)
    requires FitsBaseline(editing, baseline) && FitsBaseline(current, baseline) && i < j <= |baseline|
    requires |front| == InsertionCount(editing, current, i) + 1
    requires GroupIsMerged(rest, baseline, editing, current, i + 1, j)
    ensures GroupIsMerged(front + rest, baseline, editing, current, i, j)
  {
    var r, s := GroupStart(editing, current, j) - GroupStart(editing, current, i + 1),
                GroupStart(editing, current, j) - GroupStart(editing, current, i);
    forall k: nat | k < InsertionCount(editing, current, j)
      ensures PairsInsertions(front + rest, s, editing.insertions[j], current.insertions[j], k)
    {
      assert PairsInsertions(rest, r, editing.insertions[j], current.insertions[j], k);
      RowsMove(front, rest, r + k);
    }
    if j < |baseline| {
      RowsMove(front, rest, r + InsertionCount(editing, current, j));
    }
  }

  // ---------------------------------------------------------------- the loops

  method AlignThreeVersions(editingStarted: string, editing: string, current: string) returns (rows: seq<ConflictLine>)
    ensures var baseline := SplitLines(editingStarted);
            var e, c := Align(baseline, SplitLines(editing)), Align(baseline, SplitLines(current));
            rows == Rows(baseline, e, c, 0) && MergesFrom(rows, baseline, e, c, 0)
  {
    var baseline := SplitLines(editingStarted);
    var editingAligned := AlignToBaseline(baseline, SplitLines(editing));
    var currentAligned := AlignToBaseline(baseline, SplitLines(current));
    rows := MergeRows(baseline, editingAligned, currentAligned);
    RowsMerge(baseline, editingAligned, currentAligned, 0);
  }

  method MergeRows(baseline: seq<string>, editing: AlignedLines, current: AlignedLines)
    returns (rows: seq<ConflictLine>)
    requires FitsBaseline(editing, baseline) && FitsBaseline(current, baseline)
    ensures rows == Rows(baseline, editing, current, 0)
  {
    ghost var all := Rows(baseline, editing, current, 0);
    rows := [];
    for baselineIndex := 0 to |baseline|
      invariant all == rows + Rows(baseline, editing, current, baselineIndex)
    {
      var inserted := MergeInsertions(editing.insertions[baselineIndex], current.insertions[baselineIndex]);
      var row := BaselineRow(baselineIndex, baseline[baselineIndex], editing.matches[baselineIndex],
                             current.matches[baselineIndex]);
      RowsGoOn(baseline, editing, current, baselineIndex, inserted, row);
      RegroupRows(rows, inserted, row, Rows(baseline, editing, current, baselineIndex + 1));
      rows := rows + inserted + [row];
    }
    var inserted := MergeInsertions(editing.insertions[|baseline|], current.insertions[|baseline|]);
    RowsEnd(baseline, editing, current);
    rows := rows + inserted;
  }

  method MergeInsertions(editing: seq<string>, current: seq<string>) returns (rows: seq<ConflictLine>)
    ensures rows == InsertionRows(editing, current, 0)
  {
    rows := [];
    for k := 0 to Max(|editing|, |current|)
      invariant InsertionRows(editing, current, 0) == rows + InsertionRows(editing, current, k)
    {
      rows := rows + [InsertionRow(Cell(editing, k), Cell(current, k))];
    }
  }

  lemma {:induction false} RegroupRows(done: seq<ConflictLine>, inserted: seq<ConflictLine>, row: ConflictLine,
                                       rest: seq<ConflictLine>)
    ensures done + (inserted + ([row] + rest)) == (done + inserted + [row]) + rest
  {
  }

  datatype Column = EditingStarted | Editing | Current

  function CellOf(row: ConflictLine, column: Column): Option<string> {
    match column
    case EditingStarted => row.editingStarted
    case Editing => row.editing
    case Current => row.current
  }

  // The non-null entries of a column, top to bottom.
  function ReadColumn(rows: seq<ConflictLine>, column: Column): seq<string> {
    if rows == [] then [] else Present(CellOf(rows[0], column)) + ReadColumn(rows[1..], column)
  }

  lemma {:induction false} ReadColumnSplits(a: seq<ConflictLine>, b: seq<ConflictLine>, column: Column)
    ensures ReadColumn(a + b, column) == ReadColumn(a, column) + ReadColumn(b, column)
  {
    if a == [] {
      assert a + b == b;
    } else {
      assert (a + b)[1..] == a[1..] + b;
      ReadColumnSplits(a[1..], b, column);
    }
  }

  lemma {:induction false} ReadColumnCons(row: ConflictLine, rest: seq<ConflictLine>, column: Column)
    ensures ReadColumn([row] + rest, column) == Present(CellOf(row, column)) + ReadColumn(rest, column)
  {
    assert ([row] + rest)[1..] == rest;
  }

  lemma {:induction false} PendingStep(lines: seq<string>, k: nat)
    ensures Pending(lines, k) == Present(Cell(lines, k)) + Pending(lines, k + 1)
  {
  }

  lemma {:induction false} ReadInsertionRows(editing: seq<string>, current: seq<string>, k: nat, column: Column)
    ensures ReadColumn(InsertionRows(editing, current, k), column)
            == match column
               case EditingStarted => []
               case Editing => Pending(editing, k)
               case Current => Pending(current, k)
    decreases |editing| + |current| - k
  {
    if k < |editing| || k < |current| {
      ReadInsertionRows(editing, current, k + 1, column);
      var row := InsertionRow(Cell(editing, k), Cell(current, k));
      ReadColumnCons(row, InsertionRows(editing, current, k + 1), column);
      PendingStep(editing, k);
      PendingStep(current, k);
    }
  }

  // What a column holds from baseline line i on.
  function Version(baseline: seq<string>, editing: AlignedLines, current: AlignedLines, i: nat,
                   column: Column): seq<string>
    requires FitsBaseline(editing, baseline) && FitsBaseline(current, baseline) && i <= |baseline|
  {
    match column
    case EditingStarted => baseline[i..]
    case Editing => Reading(From(editing, i))
    case Current => Reading(From(current, i))
  }

  function From(aligned: AlignedLines, i: nat): AlignedLines
    requires i <= |aligned.matches| < |aligned.insertions|
  {
    AlignedLines(aligned.insertions[i..], aligned.matches[i..])
  }

  lemma {:induction false} ReadingFrom(aligned: AlignedLines, i: nat)
    requires i < |aligned.matches| && |aligned.insertions| == |aligned.matches| + 1
    ensures Reading(From(aligned, i)) == aligned.insertions[i]
            + (Present(aligned.matches[i]) + Reading(From(aligned, i + 1)))
  {
    assert aligned.insertions[i..][1..] == aligned.insertions[i + 1..];
    assert aligned.matches[i..][1..] == aligned.matches[i + 1..];
  }

  lemma {:induction false} VersionStep(baseline: seq<string>, editing: AlignedLines, current: AlignedLines, i: nat,
                                       column: Column)
    requires FitsBaseline(editing, baseline) && FitsBaseline(current, baseline) && i < |baseline|
    ensures Version(baseline, editing, current, i, column)
            == ReadColumn(InsertionRows(editing.insertions[i], current.insertions[i], 0), column)
               + (Present(CellOf(BaselineRow(i, baseline[i], editing.matches[i], current.matches[i]), column))
                  + Version(baseline, editing, current, i + 1, column))
  {
    ReadInsertionRows(editing.insertions[i], current.insertions[i], 0, column);
    match column
    case EditingStarted => assert baseline[i..] == [] + ([baseline[i]] + baseline[i + 1..]);
    case Editing => ReadingFrom(editing, i);
    case Current => ReadingFrom(current, i);
  }

  lemma {:induction false} ReadRows(baseline: seq<string>, editing: AlignedLines, current: AlignedLines, i: nat,
                                    column: Column)
    requires FitsBaseline(editing, baseline) && FitsBaseline(current, baseline) && i <= |baseline|
    ensures ReadColumn(Rows(baseline, editing, current, i), column) == Version(baseline, editing, current, i, column)
    decreases |baseline| - i
  {
    var inserted := InsertionRows(editing.insertions[i], current.insertions[i], 0);
    ReadInsertionRows(editing.insertions[i], current.insertions[i], 0, column);
    if i == |baseline| {
      assert Rows(baseline, editing, current, i) == inserted;
    } else {
      var row := BaselineRow(i, baseline[i], editing.matches[i], current.matches[i]);
      var rest := Rows(baseline, editing, current, i + 1);
      ReadRows(baseline, editing, current, i + 1, column);
      ReadColumnSplits(inserted, [row] + rest, column);
      ReadColumnCons(row, rest, column);
      VersionStep(baseline, editing, current, i, column);
    }
  }

  // The alignment loses and invents nothing: read top to bottom, each column holds exactly the
  // lines of its version. This covers both branches of the alignment.
  lemma {:induction false} ColumnsAreTheVersions(editingStarted: string, editing: string, current: string)
    ensures var baseline := SplitLines(editingStarted);
            var rows := Rows(baseline, Align(baseline, SplitLines(editing)), Align(baseline, SplitLines(current)), 0);
            && ReadColumn(rows, EditingStarted) == SplitLines(editingStarted)
            && ReadColumn(rows, Editing) == SplitLines(editing)
            && ReadColumn(rows, Current) == SplitLines(current)
  {
    var baseline := SplitLines(editingStarted);
    var e, c := Align(baseline, SplitLines(editing)), Align(baseline, SplitLines(current));
    AlignmentReadsVariant(baseline, SplitLines(editing));
    AlignmentReadsVariant(baseline, SplitLines(current));
    ReadRows(baseline, e, c, 0, EditingStarted);
    ReadRows(baseline, e, c, 0, Editing);
    ReadRows(baseline, e, c, 0, Current);
    assert From(e, 0) == e && From(c, 0) == c && baseline[0..] == baseline;
  }

  ghost predicate AllEqual(row: ConflictLine) {
    row.editingStarted.Some? && row.editing == row.editingStarted && row.current == row.editingStarted
  }

  // A row is unchanged exactly when all three cells are present and equal.
  lemma {:induction false} UnchangedMeansEqual(baseline: seq<string>, editing: AlignedLines, current: AlignedLines,
                                               i: nat)
    requires FitsBaseline(editing, baseline) && FitsBaseline(current, baseline) && i <= |baseline|
    ensures forall row | row in Rows(baseline, editing, current, i) :: !row.changed <==> AllEqual(row)
    decreases |baseline| - i
  {
    InsertionRowsAreChanges(editing.insertions[i], current.insertions[i], 0);
    if i < |baseline| {
      UnchangedMeansEqual(baseline, editing, current, i + 1);
    }
  }

  lemma {:induction false} InsertionRowsAreChanges(editing: seq<string>, current: seq<string>, k: nat)
    ensures forall row | row in InsertionRows(editing, current, k) :: row.changed && !AllEqual(row)
    decreases |editing| + |current| - k
  {
    if k < |editing| || k < |current| {
      InsertionRowsAreChanges(editing, current, k + 1);
    }
  }

  // ---------------------------------------------------------------- identical versions

  lemma {:induction false} ColumnsOfEqualRows(rows: seq<ConflictLine>, column: Column)
    requires forall row | row in rows :: AllEqual(row)
    ensures ReadColumn(rows, column) == ReadColumn(rows, EditingStarted)
  {
    if rows != [] {
      assert AllEqual(rows[0]);
      ColumnsOfEqualRows(rows[1..], column);
    }
  }

  lemma {:induction false} RowsOfKeptLines(baseline: seq<string>, aligned: AlignedLines, i: nat)
    requires FitsBaseline(aligned, baseline) && i <= |baseline|
    requires forall j | 0 <= j <= |baseline| :: aligned.insertions[j] == []
    requires forall j | 0 <= j < |baseline| :: aligned.matches[j] == Some(baseline[j])
    ensures forall row | row in Rows(baseline, aligned, aligned, i) :: !row.changed
    decreases |baseline| - i
  {
    if i < |baseline| {
      RowsOfKeptLines(baseline, aligned, i + 1);
    }
  }

  // All rows are unchanged exactly when the three versions have the same lines.
  lemma {:induction false} AllUnchangedIff(editingStarted: string, editing: string, current: string)
    ensures var baseline := SplitLines(editingStarted);
            var rows := Rows(baseline, Align(baseline, SplitLines(editing)), Align(baseline, SplitLines(current)), 0);
            (forall row | row in rows :: !row.changed)
            <==> SplitLines(editing) == SplitLines(editingStarted) == SplitLines(current)
  {
    var baseline := SplitLines(editingStarted);
    var e, c := Align(baseline, SplitLines(editing)), Align(baseline, SplitLines(current));
    var rows := Rows(baseline, e, c, 0);
    ColumnsAreTheVersions(editingStarted, editing, current);
    UnchangedMeansEqual(baseline, e, c, 0);
    if forall row | row in rows :: !row.changed {
      ColumnsOfEqualRows(rows, Editing);
      ColumnsOfEqualRows(rows, Current);
    }
    if SplitLines(editing) == baseline == SplitLines(current) {
      AlignmentWithItself(baseline);
      RowsOfKeptLines(baseline, e, 0);
    }
  }
}
