/**
 The column packer: a greedy fill of fixed-height columns that keeps the
 cells in their input order and leaves room for four control buttons at the
 top of the first column.
 */
module Columns {
  import opened Cells

  /** How many control buttons the first column must leave room for. */
  const ControlButtons := 4

  /** Height reserved at the top of the first column, also the least window height accepted. */
  function Reserved(s: Settings): int {
    ControlButtons * (s.shortHeight + s.spacing)
  }

  /** Room a cell takes up in a column: its height plus the spacing. */
  function Space(c: Cell, s: Settings): int {
    c.height + s.spacing
  }

  /** Total room taken by a column's cells. */
  function Used(column: seq<Cell>, s: Settings): int {
    if |column| == 0 then 0
    else Used(column[..|column| - 1], s) + Space(column[|column| - 1], s)
  }

  /** The room column `j` starts with. */
  function Capacity(j: nat, windowHeight: int, s: Settings): int {
    if j == 0 then windowHeight - Reserved(s) else windowHeight
  }

  /** The columns read one after the other. */
  function Flatten(columns: seq<seq<Cell>>): seq<Cell> {
    if |columns| == 0 then []
    else Flatten(columns[..|columns| - 1]) + columns[|columns| - 1]
  }

  lemma UsedAppend(column: seq<Cell>, c: Cell, s: Settings)
    ensures Used(column + [c], s) == Used(column, s) + Space(c, s)
  {
    assert (column + [c])[..|column|] == column;
  }

  lemma FlattenAppend(columns: seq<seq<Cell>>, column: seq<Cell>)
    ensures Flatten(columns + [column]) == Flatten(columns) + column
  {
    assert (columns + [column])[..|columns|] == columns;
  }

  /**
   What the packer has established about the closed columns: only the first
   may be empty, the first fits its reserved room, a later one fits the
   window or holds a single cell, and each was closed because the first cell
   of the next did not fit the room it had left.
   */
  ghost predicate Greedy(columns: seq<seq<Cell>>, windowHeight: int, s: Settings) {
    && (|columns| > 0 ==> Used(columns[0], s) <= Capacity(0, windowHeight, s))
    && (forall j :: 0 < j < |columns| ==> LaterFits(columns, j, windowHeight, s))
    && (forall j :: 0 <= j < |columns| - 1 ==> ClosedByNext(columns, j, windowHeight, s))
  }

  /** Column `j` (not the first) is non-empty and fits the window unless it holds one cell. */
  ghost predicate LaterFits(columns: seq<seq<Cell>>, j: int, windowHeight: int, s: Settings)
    requires 0 <= j < |columns|
  {
    |columns[j]| > 0 && (Used(columns[j], s) <= windowHeight || |columns[j]| == 1)
  }

  /** Column `j` was closed because the first cell of column `j + 1` did not fit the room left in it. */
  ghost predicate ClosedByNext(columns: seq<seq<Cell>>, j: int, windowHeight: int, s: Settings)
    requires 0 <= j < |columns| - 1
  {
    |columns[j + 1]| > 0 && Space(columns[j + 1][0], s) > Capacity(j, windowHeight, s) - Used(columns[j], s)
  }

  /** The packer's loop state after reading `i` cells. */
  ghost predicate Packing(cells: seq<Cell>, i: int, columns: seq<seq<Cell>>, column: seq<Cell>,
                          capacity: int, windowHeight: int, s: Settings)
  {
    && 0 <= i <= |cells|
    && Flatten(columns) + column == cells[..i]
    && capacity == Capacity(|columns|, windowHeight, s) - Used(column, s)
    && (|columns| == 0 || |column| > 1 ==> capacity >= 0)
    && (|columns| > 0 ==> |column| > 0)
    && (|columns| == 0 && i > 0 ==> Space(cells[0], s) <= Capacity(0, windowHeight, s))
    && (|columns| > 0 ==> (|columns[0]| == 0 <==> Space(cells[0], s) > Capacity(0, windowHeight, s)))
    && Greedy(columns, windowHeight, s)
    && (|columns| > 0 ==>
         Space(column[0], s) > Capacity(|columns| - 1, windowHeight, s) - Used(columns[|columns| - 1], s))
  }

  /** Before the first cell: no columns closed, an empty current column, the first column's room. */
  lemma StartStep(cells: seq<Cell>, windowHeight: int, s: Settings)
    requires windowHeight >= Reserved(s)
    ensures Packing(cells, 0, [], [], windowHeight - Reserved(s), windowHeight, s)
  {
    assert cells[..0] == [];
  }

  lemma AppendStep(cells: seq<Cell>, i: int, columns: seq<seq<Cell>>, column: seq<Cell>,
                   capacity: int, windowHeight: int, s: Settings)
    requires Packing(cells, i, columns, column, capacity, windowHeight, s)
    requires i < |cells| && Space(cells[i], s) <= capacity
    ensures Packing(cells, i + 1, columns, column + [cells[i]], capacity - Space(cells[i], s), windowHeight, s)
  {
    assert cells[..i + 1] == cells[..i] + [cells[i]];
    UsedAppend(column, cells[i], s);
    if |columns| > 0 {
      assert (column + [cells[i]])[0] == column[0];
    }
  }

  /** Closing one more column keeps the closed columns greedy. */
  lemma GreedyExtend(columns: seq<seq<Cell>>, column: seq<Cell>, windowHeight: int, s: Settings)
    requires Greedy(columns, windowHeight, s)
    requires |columns| == 0 ==> Used(column, s) <= Capacity(0, windowHeight, s)
    requires |columns| > 0 ==> |column| > 0
    requires |columns| > 0 ==> Used(column, s) <= windowHeight || |column| == 1
    requires |columns| > 0 ==>
      Space(column[0], s) > Capacity(|columns| - 1, windowHeight, s) - Used(columns[|columns| - 1], s)
    ensures Greedy(columns + [column], windowHeight, s)
  {
    var next := columns + [column];
    forall j | 0 < j < |next|
      ensures LaterFits(next, j, windowHeight, s)
    {
      if j < |columns| {
        assert next[j] == columns[j];
        assert LaterFits(columns, j, windowHeight, s);
      }
    }
    forall j | 0 <= j < |next| - 1
      ensures ClosedByNext(next, j, windowHeight, s)
    {
      assert next[j] == columns[j];
      if j + 1 < |columns| {
        assert next[j + 1] == columns[j + 1];
        assert ClosedByNext(columns, j, windowHeight, s);
      }
    }
    if |columns| > 0 {
      assert next[0] == columns[0];
    }
  }

  lemma CloseStep(cells: seq<Cell>, i: int, columns: seq<seq<Cell>>, column: seq<Cell>,
                  capacity: int, windowHeight: int, s: Settings)
    requires Packing(cells, i, columns, column, capacity, windowHeight, s)
    requires i < |cells| && Space(cells[i], s) > capacity
    ensures Packing(cells, i + 1, columns + [column], [cells[i]], windowHeight - Space(cells[i], s), windowHeight, s)
  {
    assert cells[..i + 1] == cells[..i] + [cells[i]];
    FlattenAppend(columns, column);
    UsedAppend([], cells[i], s);
    GreedyExtend(columns, column, windowHeight, s);
    if |columns| == 0 && i == 0 {
      assert column == [];
    }
  }

  /** The column list once the last, current column is closed; an empty last column is dropped. */
  function Close(columns: seq<seq<Cell>>, column: seq<Cell>): seq<seq<Cell>> {
    if |column| > 0 then columns + [column] else columns
  }

  /**
   What `make_columns` yields for `cells`: the columns read back in order give
   the cells; there are none exactly when there are no cells; only the first
   may be empty, and it is empty exactly when the first cell does not fit the
   reserved room; the first fits its reserved room; a later one fits the
   window or holds a single cell; and every column but the last was closed
   because the first cell of the next did not fit the room it had left.
   */
  ghost predicate Packed(columns: seq<seq<Cell>>, cells: seq<Cell>, windowHeight: int, s: Settings) {
    && Flatten(columns) == cells
    && (|columns| == 0 <==> |cells| == 0)
    && (forall j :: 0 < j < |columns| ==> |columns[j]| > 0)
    && (|cells| > 0 ==> (|columns[0]| == 0 <==> Space(cells[0], s) > Capacity(0, windowHeight, s)))
    && (|columns| > 0 ==> Used(columns[0], s) <= Capacity(0, windowHeight, s))
    && (forall j :: 0 < j < |columns| ==> Used(columns[j], s) <= windowHeight || |columns[j]| == 1)
    && (forall j, k :: 0 <= j && k == j + 1 && k < |columns| ==>
          Space(columns[k][0], s) > Capacity(j, windowHeight, s) - Used(columns[j], s))
  }

  /**
   The loop's exit: once every cell is read, closing the last column yields
   columns with every property the packer promises.
   */
  lemma FinishStep(cells: seq<Cell>, columns: seq<seq<Cell>>, column: seq<Cell>,
                   capacity: int, windowHeight: int, s: Settings)
    requires Packing(cells, |cells|, columns, column, capacity, windowHeight, s)
    ensures Packed(Close(columns, column), cells, windowHeight, s)
  {
    assert cells[..|cells|] == cells;
    var done := Close(columns, column);
    if |column| > 0 {
      GreedyExtend(columns, column, windowHeight, s);
      FlattenAppend(columns, column);
      if |columns| > 0 {
        assert done[0] == columns[0];
      }
    }
    assert Greedy(done, windowHeight, s);
    forall j | 0 < j < |done|
      ensures |done[j]| > 0 && (Used(done[j], s) <= windowHeight || |done[j]| == 1)
    {
      assert LaterFits(done, j, windowHeight, s);
    }
    forall j, k | 0 <= j && k == j + 1 && k < |done|
      ensures Space(done[k][0], s) > Capacity(j, windowHeight, s) - Used(done[j], s)
    {
      assert ClosedByNext(done, j, windowHeight, s);
    }
  }

  /**
   Distributes the sized cells into columns of height `windowHeight`. A cell
   goes into the current column while its space fits the room left;
   otherwise the current column is closed, even when it is still empty, and
   a new one starts with that cell whatever its size.
   */
  method MakeColumns(cells: seq<Cell>, windowHeight: int, s: Settings) returns (columns: seq<seq<Cell>>)
    requires windowHeight >= Reserved(s)
    ensures Packed(columns, cells, windowHeight, s)
  {
    var closed: seq<seq<Cell>> := [];
    var column: seq<Cell> := [];
    var capacity := windowHeight - Reserved(s);
    var i := 0;
    StartStep(cells, windowHeight, s);
    while i < |cells|
      invariant Packing(cells, i, closed, column, capacity, windowHeight, s)
    {
      var cell := cells[i];
      var spaceRequired := cell.height + s.spacing;
      if spaceRequired <= capacity {
        AppendStep(cells, i, closed, column, capacity, windowHeight, s);
        column := column + [cell];
        capacity := capacity - spaceRequired;
      } else {
        CloseStep(cells, i, closed, column, capacity, windowHeight, s);
        closed := closed + [column];
        column := [cell];
        capacity := windowHeight - spaceRequired;
      }
      i := i + 1;
    }
    FinishStep(cells, closed, column, capacity, windowHeight, s);
    columns := Close(closed, column);
  }
}
