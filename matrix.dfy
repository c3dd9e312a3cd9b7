/**
 * lab3's matrix product and the ways it splits the work (lab3/lab3.cpp).
 * The operands are read-only row vectors of rows; the result is a
 * rows-by-columns buffer that the workers fill in place.  A worker either takes
 * a run of consecutive cells in row-major or column-major order, or every cell
 * whose index sum falls in its residue class.  The threads and the thread pool
 * become sequential calls.
 */
module MatrixWork {
  /** The fixed dimensions and task count of lab3. */
  const Matrix1Rows := 1024
  const Matrix1Cols := 512
  const Matrix2Rows := 512
  const Matrix2Cols := 1024
  const TaskCount := 8

  function Min(a: int, b: int): int { if a <= b then a else b }
  function Max(a: int, b: int): int { if a >= b then a else b }

  /** m1 has rows of |m2| entries and m2 is rectangular, so m1 · m2 is defined. */
  predicate Conformable(m1: seq<seq<int>>, m2: seq<seq<int>>)
  {
    |m1| >= 1 && |m2| >= 1 && |m2[0]| >= 1 &&
    (forall i :: 0 <= i < |m1| ==> |m1[i]| == |m2|) &&
    (forall k :: 0 <= k < |m2| ==> |m2[k]| == |m2[0]|)
  }

  /** The first n terms of the dot product of `row` with column c of m2. */
  function Dot(row: seq<int>, m2: seq<seq<int>>, c: int, n: nat): (r: int)
    requires n <= |row| && n <= |m2| && forall k :: 0 <= k < n ==> 0 <= c < |m2[k]|
    ensures (forall k :: 0 <= k < n ==> row[k] == 0) ==> r == 0
    ensures (forall k :: 0 <= k < n ==> row[k] >= 0 && m2[k][c] >= 0) ==> r >= 0
  {
    if n == 0 then 0 else
    assert 0 <= c < |m2[n - 1]|;
    Dot(row, m2, c, n - 1) + row[n - 1] * m2[n - 1][c]
  }

  /** Cell (r, c) of m1 · m2. */
  function Element(m1: seq<seq<int>>, m2: seq<seq<int>>, r: int, c: int): (e: int)
    requires Conformable(m1, m2) && 0 <= r < |m1| && 0 <= c < |m2[0]|
    ensures (forall k :: 0 <= k < |m2| ==> m1[r][k] == 0) ==> e == 0
    ensures (forall k :: 0 <= k < |m2| ==> m1[r][k] >= 0 && m2[k][c] >= 0) ==> e >= 0
    ensures |m2| == 1 ==> e == m1[r][0] * m2[0][c]
  {
    Dot(m1[r], m2, c, |m2|)
  }

  /** The buffer has the shape of m1 · m2. */
  predicate Shaped(m1: seq<seq<int>>, m2: seq<seq<int>>, result: array2<int>)
    reads {}
  {
    Conformable(m1, m2) && result.Length0 == |m1| && result.Length1 == |m2[0]|
  }

  /** Position of cell (major, minor) in a walk whose major lines each hold `width` cells. */
  function Pos(major: int, minor: int, width: int): int
  {
    major * width + minor
  }

  /** `computeElement(row, column)`: the dot product of row `row` of m1 with column `column` of m2. */
  method ComputeElement(row: int, column: int, m1: seq<seq<int>>, m2: seq<seq<int>>) returns (result: int)
    requires Conformable(m1, m2) && 0 <= row < |m1| && 0 <= column < |m2[0]|
    ensures result == Element(m1, m2, row, column)
  {
    result := 0;
    var rowSize := |m1[0]|;
    var i := 0;
    while i < rowSize
      invariant 0 <= i <= rowSize
      invariant result == Dot(m1[row], m2, column, i)
    {
      result := result + m1[row][i] * m2[i][column];
      i := i + 1;
    }
  }

  /** `generateMatrices`: both operands have cell (i, j) equal to i·j + 1, in the fixed dimensions. */
  method GenerateMatrices() returns (m1: seq<seq<int>>, m2: seq<seq<int>>)
    ensures |m1| == Matrix1Rows && |m2| == Matrix2Rows
    ensures forall i :: 0 <= i < |m1| ==> |m1[i]| == Matrix1Cols
    ensures forall i :: 0 <= i < |m2| ==> |m2[i]| == Matrix2Cols
    ensures forall i, j :: 0 <= i < |m1| && 0 <= j < |m1[i]| ==> m1[i][j] == i * j + 1
    ensures forall i, j :: 0 <= i < |m2| && 0 <= j < |m2[i]| ==> m2[i][j] == i * j + 1
    ensures Conformable(m1, m2)
  {
    m1 := GenerateMatrix(Matrix1Rows, Matrix1Cols);
    m2 := GenerateMatrix(Matrix2Rows, Matrix2Cols);
  }

  /** One of `generateMatrices`'s two push_back loops. */
  method GenerateMatrix(rows: nat, columns: nat) returns (m: seq<seq<int>>)
    ensures |m| == rows && forall i :: 0 <= i < rows ==> |m[i]| == columns
    ensures forall i, j :: 0 <= i < rows && 0 <= j < columns ==> m[i][j] == i * j + 1
  {
    m := [];
    var i := 0;
    while i < rows
      invariant 0 <= i <= rows && |m| == i
      invariant forall a :: 0 <= a < i ==> |m[a]| == columns
      invariant forall a, b :: 0 <= a < i && 0 <= b < columns ==> m[a][b] == a * b + 1
    {
      var line := [];
      var j := 0;
      while j < columns
        invariant 0 <= j <= columns && |line| == j
        invariant forall b :: 0 <= b < j ==> line[b] == i * b + 1
      {
        line := line + [i * j + 1];
        j := j + 1;
      }
      m := m + [line];
      i := i + 1;
    }
  }

  /** The `count` positions from (startMajor, startMinor) on, in a walk whose major lines hold `width` cells. */
  predicate InWindow(major: int, minor: int, startMajor: int, startMinor: int, count: int, width: int)
  {
    startMinor < width &&
    Pos(startMajor, startMinor, width) <= Pos(major, minor, width) < Pos(startMajor, startMinor, width) + count
  }

  /** The cells the row-major worker writes: the next `count` positions from (startRow, startColumn). */
  predicate InRowWindow(i: int, j: int, startRow: int, startColumn: int, count: int, columns: int)
  {
    InWindow(i, j, startRow, startColumn, count, columns)
  }

  /** The cells the column-major worker writes: the next `count` positions from (startRow, startColumn). */
  predicate InColumnWindow(i: int, j: int, startRow: int, startColumn: int, count: int, rows: int)
  {
    InWindow(j, i, startColumn, startRow, count, rows)
  }

  /** An offset splits back into (offset / width, offset % width). */
  lemma PosDivMod(offset: int, width: int)
    requires offset >= 0 && width >= 1
    ensures offset / width >= 0 && 0 <= offset % width < width
    ensures Pos(offset / width, offset % width, width) == offset
  {
  }

  /** Cells of a grid have non-negative positions. */
  lemma PosNonNegative(major: int, minor: int, width: int)
    requires 0 <= major && 0 <= minor && 0 <= width
    ensures 0 <= Pos(major, minor, width)
  {
    MulLeft(0, major, width);
  }

  lemma MulLeft(x: int, y: int, width: int)
    requires x <= y && width >= 0
    ensures x * width <= y * width
  {
    assert y * width - x * width == (y - x) * width;
  }

  /** Cells of lines 0 .. lines-1 come before every position of line `start` onwards. */
  lemma PosBound(a: int, b: int, lines: int, start: int, width: int)
    requires 0 <= a && 0 <= b < width && a < lines <= start
    ensures Pos(a, b, width) < lines * width <= start * width
    ensures forall c :: 0 <= c ==> Pos(a, b, width) < Pos(start, c, width)
  {
    MulLeft(a + 1, lines, width);
    MulLeft(lines, start, width);
    assert (a + 1) * width == a * width + width;
    forall c | 0 <= c
      ensures Pos(a, b, width) < Pos(start, c, width)
    {
    }
  }

  /**
   * Where a walk that stopped after the last line, or ran out of cells, has
   * written: exactly its window, within a grid of `lines` major lines.
   */
  lemma WalkExit(lines: int, width: int, startMajor: int, startMinor: int, total: int, count: int, major: int, minor: int)
    requires 0 <= startMajor && 0 <= startMinor && 0 <= minor
    requires startMinor >= width ==> count == total
    requires total <= 0 ==> count == total
    requires total > 0 ==> 0 <= count
    requires count > 0 ==> major >= lines
    requires startMinor < width && count > 0 ==> Pos(startMajor, startMinor, width) + (total - count) == Pos(major, minor, width)
    ensures forall a, b :: 0 <= a < lines && 0 <= b < width ==>
      (InWindow(a, b, startMajor, startMinor, total, width) <==>
       (startMinor < width && Pos(startMajor, startMinor, width) <= Pos(a, b, width) < Pos(startMajor, startMinor, width) + (total - count)))
  {
    forall a, b | 0 <= a < lines && 0 <= b < width
      ensures InWindow(a, b, startMajor, startMinor, total, width) <==>
        (startMinor < width && Pos(startMajor, startMinor, width) <= Pos(a, b, width) < Pos(startMajor, startMinor, width) + (total - count))
    {
      if startMinor < width && count > 0 && total > 0 {
        PosBound(a, b, lines, major, width);
      }
    }
  }

  /**
   * `threadWorkRowByRow`: walking rows from `startRow` and columns from
   * `startColumn` (reset to 0 after the first cell), it computes `elementNum`
   * cells in row-major order, stopping early at the last row.  A start column
   * past the last column means no cell is written at all.
   */
  method RowByRow(m1: seq<seq<int>>, m2: seq<seq<int>>, result: array2<int>, startRow: int, startColumn: int, elementNum: int)
    requires Shaped(m1, m2, result) && 0 <= startRow && 0 <= startColumn
    modifies result
    ensures forall i, j :: 0 <= i < result.Length0 && 0 <= j < result.Length1 ==>
      result[i, j] == if InRowWindow(i, j, startRow, startColumn, elementNum, result.Length1)
                      then Element(m1, m2, i, j) else old(result[i, j])
  {
    var rows, columns := result.Length0, result.Length1;
    ghost var start := Pos(startRow, startColumn, columns);
    var count := elementNum;
    var column := startColumn;
    var i := startRow;
    while i < rows && count > 0
      invariant startRow <= i <= Max(startRow, rows)
      invariant elementNum <= 0 ==> count == elementNum
      invariant elementNum > 0 ==> 0 <= count <= elementNum
      invariant 0 <= column && (startColumn >= columns ==> count == elementNum && column == startColumn)
      invariant startColumn < columns && count > 0 ==>
        column == (if i == startRow then startColumn else 0) && start + (elementNum - count) == Pos(i, column, columns)
      invariant forall a, b :: 0 <= a < rows && 0 <= b < columns ==>
        result[a, b] == if startColumn < columns && start <= Pos(a, b, columns) < start + (elementNum - count)
                        then Element(m1, m2, a, b) else old(result[a, b])
    {
      count, column := AlongRow(m1, m2, result, i, column, count);
      i := i + 1;
    }
    WalkExit(rows, columns, startRow, startColumn, elementNum, count, i, column);
  }

  /**
   * The inner loop of `threadWorkRowByRow` on row `i`: the cells from
   * `column` to the end of the row, while `count` lasts.  Every cell written
   * resets the start column to 0.
   */
  method AlongRow(m1: seq<seq<int>>, m2: seq<seq<int>>, result: array2<int>, i: int, column: int, count: int)
    returns (remaining: int, nextColumn: int)
    requires Shaped(m1, m2, result) && 0 <= i < result.Length0 && 0 <= column && count > 0
    modifies result
    ensures 0 <= remaining <= count
    ensures column >= result.Length1 ==> remaining == count && nextColumn == column
    ensures column < result.Length1 ==> (nextColumn == 0 && remaining < count &&
      (remaining > 0 ==> Pos(i, column, result.Length1) + (count - remaining) == Pos(i + 1, 0, result.Length1)))
    ensures forall a, b :: 0 <= a < result.Length0 && 0 <= b < result.Length1 ==>
      result[a, b] == if Pos(i, column, result.Length1) <= Pos(a, b, result.Length1) < Pos(i, column, result.Length1) + (count - remaining)
                      then Element(m1, m2, a, b) else old(result[a, b])
  {
    var rows, columns := result.Length0, result.Length1;
    remaining, nextColumn := count, column;
    var j := column;
    while j < columns && remaining > 0
      invariant column <= j && (column < columns ==> j <= columns) && (column >= columns ==> j == column)
      invariant remaining == count - (j - column) && 0 <= remaining
      invariant nextColumn == if j == column then column else 0
      invariant forall a, b :: 0 <= a < rows && 0 <= b < columns ==>
        result[a, b] == if a == i && column <= b < j then Element(m1, m2, a, b) else old(result[a, b])
    {
      result[i, j] := ComputeElement(i, j, m1, m2);
      nextColumn := 0;
      j, remaining := j + 1, remaining - 1;
    }
    if column < columns {
      forall a, b | 0 <= a < rows && 0 <= b < columns
        ensures (Pos(i, column, columns) <= Pos(a, b, columns) < Pos(i, column, columns) + (j - column)) <==>
          (a == i && column <= b < j)
      {
        LineRange(a, b, i, column, j, columns);
      }
      if remaining > 0 {
        LineRange(i, 0, i, column, j, columns);
      }
    }
  }

  /** Positions from (i, from) up to (i, to) on one line are exactly the cells of line i in [from, to). */
  lemma LineRange(a: int, b: int, i: int, from: int, to: int, width: int)
    requires 0 <= a && 0 <= b < width && 0 <= i && 0 <= from <= to <= width
    ensures (Pos(i, from, width) <= Pos(a, b, width) < Pos(i, from, width) + (to - from)) <==> (a == i && from <= b < to)
  {
    if a < i {
      MulLeft(a + 1, i, width);
      assert (a + 1) * width == a * width + width;
    } else if a > i {
      MulLeft(i + 1, a, width);
      assert (i + 1) * width == i * width + width;
    }
  }

  /**
   * `threadWorkColumnByColumn`: the same walk in column-major order, from
   * `startColumn` and `startRow` (reset to 0 after the first cell).
   */
  method ColumnByColumn(m1: seq<seq<int>>, m2: seq<seq<int>>, result: array2<int>, startRow: int, startColumn: int, elementNum: int)
    requires Shaped(m1, m2, result) && 0 <= startRow && 0 <= startColumn
    modifies result
    ensures forall i, j :: 0 <= i < result.Length0 && 0 <= j < result.Length1 ==>
      result[i, j] == if InColumnWindow(i, j, startRow, startColumn, elementNum, result.Length0)
                      then Element(m1, m2, i, j) else old(result[i, j])
  {
    var rows, columns := result.Length0, result.Length1;
    ghost var start := Pos(startColumn, startRow, rows);
    var count := elementNum;
    var row := startRow;
    var j := startColumn;
    while j < columns && count > 0
      invariant startColumn <= j <= Max(startColumn, columns)
      invariant elementNum <= 0 ==> count == elementNum
      invariant elementNum > 0 ==> 0 <= count <= elementNum
      invariant 0 <= row && (startRow >= rows ==> count == elementNum && row == startRow)
      invariant startRow < rows && count > 0 ==>
        row == (if j == startColumn then startRow else 0) && start + (elementNum - count) == Pos(j, row, rows)
      invariant forall a, b :: 0 <= a < rows && 0 <= b < columns ==>
        result[a, b] == if startRow < rows && start <= Pos(b, a, rows) < start + (elementNum - count)
                        then Element(m1, m2, a, b) else old(result[a, b])
    {
      count, row := AlongColumn(m1, m2, result, j, row, count);
      j := j + 1;
    }
    WalkExit(columns, rows, startColumn, startRow, elementNum, count, j, row);
  }

  /** The inner loop of `threadWorkColumnByColumn` on column `j`, from `row` down while `count` lasts. */
  method AlongColumn(m1: seq<seq<int>>, m2: seq<seq<int>>, result: array2<int>, j: int, row: int, count: int)
    returns (remaining: int, nextRow: int)
    requires Shaped(m1, m2, result) && 0 <= j < result.Length1 && 0 <= row && count > 0
    modifies result
    ensures 0 <= remaining <= count
    ensures row >= result.Length0 ==> remaining == count && nextRow == row
    ensures row < result.Length0 ==> (nextRow == 0 && remaining < count &&
      (remaining > 0 ==> Pos(j, row, result.Length0) + (count - remaining) == Pos(j + 1, 0, result.Length0)))
    ensures forall a, b :: 0 <= a < result.Length0 && 0 <= b < result.Length1 ==>
      result[a, b] == if Pos(j, row, result.Length0) <= Pos(b, a, result.Length0) < Pos(j, row, result.Length0) + (count - remaining)
                      then Element(m1, m2, a, b) else old(result[a, b])
  {
    var rows, columns := result.Length0, result.Length1;
    remaining, nextRow := count, row;
    var i := row;
    while i < rows && remaining > 0
      invariant row <= i && (row < rows ==> i <= rows) && (row >= rows ==> i == row)
      invariant remaining == count - (i - row) && 0 <= remaining
      invariant nextRow == if i == row then row else 0
      invariant forall a, b :: 0 <= a < rows && 0 <= b < columns ==>
        result[a, b] == if b == j && row <= a < i then Element(m1, m2, a, b) else old(result[a, b])
    {
      result[i, j] := ComputeElement(i, j, m1, m2);
      nextRow := 0;
      i, remaining := i + 1, remaining - 1;
    }
    if row < rows {
      forall a, b | 0 <= a < rows && 0 <= b < columns
        ensures (Pos(j, row, rows) <= Pos(b, a, rows) < Pos(j, row, rows) + (i - row)) <==>
          (b == j && row <= a < i)
      {
        LineRange(b, a, j, row, i, rows);
      }
    }
  }

  /** `threadWorkKth(order)`: every cell whose index sum is congruent to `order` modulo the task count. */
  method Kth(m1: seq<seq<int>>, m2: seq<seq<int>>, result: array2<int>, order: int, tasks: int)
    requires Shaped(m1, m2, result) && tasks >= 1
    modifies result
    ensures forall i, j :: 0 <= i < result.Length0 && 0 <= j < result.Length1 ==>
      result[i, j] == if (i + j) % tasks == order then Element(m1, m2, i, j) else old(result[i, j])
  {
    var i := 0;
    while i < result.Length0
      invariant 0 <= i <= result.Length0
      invariant forall a, b :: 0 <= a < result.Length0 && 0 <= b < result.Length1 ==>
        result[a, b] == if a < i && (a + b) % tasks == order then Element(m1, m2, a, b) else old(result[a, b])
    {
      var j := 0;
      while j < result.Length1
        invariant 0 <= j <= result.Length1
        invariant forall a, b :: 0 <= a < result.Length0 && 0 <= b < result.Length1 ==>
          result[a, b] == if (a < i || (a == i && b < j)) && (a + b) % tasks == order
                          then Element(m1, m2, a, b) else old(result[a, b])
      {
        if (i + j) % tasks == order {
          result[i, j] := ComputeElement(i, j, m1, m2);
        }
        j := j + 1;
      }
      i := i + 1;
    }
  }

  /** `verifyResult`: false (the source throws) exactly when some cell of `correct` differs in `result`. */
  method VerifyResult(correct: array2<int>, result: array2<int>) returns (ok: bool)
    requires correct.Length0 <= result.Length0 && correct.Length1 <= result.Length1
    ensures ok <==> forall i, j :: 0 <= i < correct.Length0 && 0 <= j < correct.Length1 ==> correct[i, j] == result[i, j]
  {
    var i := 0;
    while i < correct.Length0
      invariant 0 <= i <= correct.Length0
      invariant forall a, b :: 0 <= a < i && 0 <= b < correct.Length1 ==> correct[a, b] == result[a, b]
    {
      var j := 0;
      while j < correct.Length1
        invariant 0 <= j <= correct.Length1
        invariant forall b :: 0 <= b < j ==> correct[i, b] == result[i, b]
      {
        if correct[i, j] != result[i, j] {
          return false;
        }
        j := j + 1;
      }
      i := i + 1;
    }
    return true;
  }

  /** Where task t's run of cells begins: t·(total / tasks) plus one per earlier task that got an extra cell. */
  function SplitStart(total: int, tasks: int, t: int): int
    requires tasks >= 1
  {
    t * (total / tasks) + Min(t, total % tasks)
  }

  /** How many cells task t gets: total / tasks, plus one for the first total % tasks tasks. */
  function SplitCount(total: int, tasks: int, t: int): int
    requires tasks >= 1
  {
    total / tasks + if t < total % tasks then 1 else 0
  }

  /** Task t+1's run begins where task t's ends, so the runs are consecutive and disjoint. */
  lemma SplitConsecutive(total: int, tasks: int, t: int)
    requires tasks >= 1
    ensures SplitStart(total, tasks, t + 1) == SplitStart(total, tasks, t) + SplitCount(total, tasks, t)
  {
    assert (t + 1) * (total / tasks) == t * (total / tasks) + total / tasks;
  }

  /** Every run is non-empty or empty, never negative, for a non-negative total. */
  lemma SplitCountNonNegative(total: int, tasks: int, t: int)
    requires tasks >= 1 && total >= 0
    ensures SplitCount(total, tasks, t) >= 0
  {
  }

  /** The runs of tasks 0 .. tasks-1 start at 0 and end exactly at `total`. */
  lemma SplitCovers(total: int, tasks: int)
    requires tasks >= 1
    ensures SplitStart(total, tasks, 0) == 0
    ensures SplitStart(total, tasks, tasks) == total
  {
    assert tasks * (total / tasks) + total % tasks == total;
  }

  /** Runs of distinct tasks never overlap: an earlier task's run ends before a later one begins. */
  lemma {:induction false} SplitDisjoint(total: int, tasks: int, t1: int, t2: int)
    requires tasks >= 1 && total >= 0 && t1 < t2
    ensures SplitStart(total, tasks, t1) + SplitCount(total, tasks, t1) <= SplitStart(total, tasks, t2)
    decreases t2 - t1
  {
    SplitConsecutive(total, tasks, t1);
    if t1 + 1 < t2 {
      SplitDisjoint(total, tasks, t1 + 1, t2);
      SplitCountNonNegative(total, tasks, t1 + 1);
    }
  }

  /** `main`'s single-threaded product. */
  method SingleThread(m1: seq<seq<int>>, m2: seq<seq<int>>) returns (correct: array2<int>)
    requires Conformable(m1, m2)
    ensures fresh(correct) && Shaped(m1, m2, correct)
    ensures forall i, j :: 0 <= i < correct.Length0 && 0 <= j < correct.Length1 ==> correct[i, j] == Element(m1, m2, i, j)
  {
    correct := new int[|m1|, |m2[0]|];
    var i := 0;
    while i < correct.Length0
      invariant 0 <= i <= correct.Length0
      invariant forall a, b :: 0 <= a < i && 0 <= b < correct.Length1 ==> correct[a, b] == Element(m1, m2, a, b)
    {
      var j := 0;
      while j < correct.Length1
        invariant 0 <= j <= correct.Length1
        invariant forall a, b :: 0 <= a < i && 0 <= b < correct.Length1 ==> correct[a, b] == Element(m1, m2, a, b)
        invariant forall b :: 0 <= b < j ==> correct[i, b] == Element(m1, m2, i, b)
      {
        correct[i, j] := ComputeElement(i, j, m1, m2);
        j := j + 1;
      }
      i := i + 1;
    }
  }

  /**
   * `threadTest`'s row-by-row scheme: task `index` gets the next
   * SplitCount cells, starting at row offset / columns and column
   * offset % columns.  Together the tasks compute the whole product.
   */
  method RowSplit(m1: seq<seq<int>>, m2: seq<seq<int>>, tasks: int) returns (result: array2<int>)
    requires Conformable(m1, m2) && tasks >= 1
    ensures fresh(result) && Shaped(m1, m2, result)
    ensures forall i, j :: 0 <= i < result.Length0 && 0 <= j < result.Length1 ==> result[i, j] == Element(m1, m2, i, j)
  {
    var rows, columns := |m1|, |m2[0]|;
    result := new int[rows, columns]((_, _) => 0);
    var total := rows * columns;
    MulLeft(0, rows, columns);
    var additional := total % tasks;
    var computed := 0;
    var perThread := total / tasks;
    var index := 0;
    SplitCovers(total, tasks);
    forall a, b | 0 <= a < rows && 0 <= b < columns
      ensures Pos(a, b, columns) >= 0
    {
      PosNonNegative(a, b, columns);
    }
    while index < tasks
      invariant 0 <= index <= tasks
      invariant computed == SplitStart(total, tasks, index) && computed >= 0
      invariant additional == Max(0, total % tasks - index)
      invariant forall a, b :: 0 <= a < rows && 0 <= b < columns ==>
        result[a, b] == if Pos(a, b, columns) < computed then Element(m1, m2, a, b) else 0
    {
      var count := perThread;
      if additional > 0 {
        count := count + 1;
        additional := additional - 1;
      }
      assert count == SplitCount(total, tasks, index);
      var rowStart, columnStart := computed / columns, computed % columns;
      PosDivMod(computed, columns);
      SplitCountNonNegative(total, tasks, index);
      RowByRow(m1, m2, result, rowStart, columnStart, count);
      forall a, b | 0 <= a < rows && 0 <= b < columns
        ensures InRowWindow(a, b, rowStart, columnStart, count, columns) <==> computed <= Pos(a, b, columns) < computed + count
      {
      }
      SplitConsecutive(total, tasks, index);
      computed := computed + count;
      index := index + 1;
    }
    forall a, b | 0 <= a < rows && 0 <= b < columns
      ensures Pos(a, b, columns) < total
    {
      PosBound(a, b, rows, rows, columns);
    }
  }

  /**
   * `threadTest`'s column-by-column scheme: the offset is split as
   * (offset % rows, offset / rows) and passed as the worker's start row and
   * start column.
   */
  method ColumnSplit(m1: seq<seq<int>>, m2: seq<seq<int>>, tasks: int) returns (result: array2<int>)
    requires Conformable(m1, m2) && tasks >= 1
    ensures fresh(result) && Shaped(m1, m2, result)
    ensures forall i, j :: 0 <= i < result.Length0 && 0 <= j < result.Length1 ==> result[i, j] == Element(m1, m2, i, j)
  {
    var rows, columns := |m1|, |m2[0]|;
    result := new int[rows, columns]((_, _) => 0);
    var total := rows * columns;
    MulLeft(0, rows, columns);
    var additional := total % tasks;
    var computed := 0;
    var perThread := total / tasks;
    var index := 0;
    SplitCovers(total, tasks);
    forall a, b | 0 <= a < rows && 0 <= b < columns
      ensures Pos(b, a, rows) >= 0
    {
      PosNonNegative(b, a, rows);
    }
    while index < tasks
      invariant 0 <= index <= tasks
      invariant computed == SplitStart(total, tasks, index) && computed >= 0
      invariant additional == Max(0, total % tasks - index)
      invariant forall a, b :: 0 <= a < rows && 0 <= b < columns ==>
        result[a, b] == if Pos(b, a, rows) < computed then Element(m1, m2, a, b) else 0
    {
      var count := perThread;
      if additional > 0 {
        count := count + 1;
        additional := additional - 1;
      }
      assert count == SplitCount(total, tasks, index);
      var rowStart, columnStart := computed / rows, computed % rows;
      PosDivMod(computed, rows);
      SplitCountNonNegative(total, tasks, index);
      ColumnByColumn(m1, m2, result, columnStart, rowStart, count);
      forall a, b | 0 <= a < rows && 0 <= b < columns
        ensures InColumnWindow(a, b, columnStart, rowStart, count, rows) <==> computed <= Pos(b, a, rows) < computed + count
      {
      }
      SplitConsecutive(total, tasks, index);
      computed := computed + count;
      index := index + 1;
    }
    forall a, b | 0 <= a < rows && 0 <= b < columns
      ensures Pos(b, a, rows) < total
    {
      PosBound(b, a, columns, columns, rows);
      assert columns * rows == total;
    }
  }

  /** `threadTest`'s k-th element scheme: one worker per residue 0 .. tasks-1. */
  method KthSplit(m1: seq<seq<int>>, m2: seq<seq<int>>, tasks: int) returns (result: array2<int>)
    requires Conformable(m1, m2) && tasks >= 1
    ensures fresh(result) && Shaped(m1, m2, result)
    ensures forall i, j :: 0 <= i < result.Length0 && 0 <= j < result.Length1 ==> result[i, j] == Element(m1, m2, i, j)
  {
    result := new int[|m1|, |m2[0]|]((_, _) => 0);
    var index := 0;
    while index < tasks
      invariant 0 <= index <= tasks
      invariant forall a, b :: 0 <= a < result.Length0 && 0 <= b < result.Length1 ==>
        result[a, b] == if (a + b) % tasks < index then Element(m1, m2, a, b) else 0
    {
      Kth(m1, m2, result, index, tasks);
      index := index + 1;
    }
  }

  /** `threadTest` on the generated operands: every scheme's result passes `verifyResult`. */
  method ThreadTest(m1: seq<seq<int>>, m2: seq<seq<int>>) returns (rowsOk: bool, columnsOk: bool, kthOk: bool)
    requires Conformable(m1, m2)
    ensures rowsOk && columnsOk && kthOk
  {
    var correct := SingleThread(m1, m2);
    var byRows := RowSplit(m1, m2, TaskCount);
    rowsOk := VerifyResult(correct, byRows);
    var byColumns := ColumnSplit(m1, m2, TaskCount);
    columnsOk := VerifyResult(correct, byColumns);
    var byOrder := KthSplit(m1, m2, TaskCount);
    kthOk := VerifyResult(correct, byOrder);
  }
}
