/** `Cells::clear_lines`: removing full rows and letting the rows above fall (src/main.rs). */
module LineClear {
  import opened Wrappers
  import opened Pieces
  import opened Grid

  type CellRow = seq<Option<Piece>>

  /** A row every cell of which is occupied. */
  predicate Full(row: CellRow) {
    forall x :: 0 <= x < |row| ==> row[x].Some?
  }

  function EmptyRow(w: nat): (r: CellRow)
    ensures |r| == w && forall x :: 0 <= x < w ==> r[x] == None
  {
    seq(w, _ => None)
  }

  function EmptyRows(n: nat, w: nat): (r: seq<CellRow>)
    ensures |r| == n && forall k :: 0 <= k < n ==> r[k] == EmptyRow(w)
  {
    seq(n, _ => EmptyRow(w))
  }

  /** The rows that survive a clear, in their original order. */
  function Kept(rows: seq<CellRow>): seq<CellRow> {
    if |rows| == 0 then []
    else (if Full(rows[0]) then [] else [rows[0]]) + Kept(rows[1..])
  }

  /** The number of full rows. */
  function CountFull(rows: seq<CellRow>): nat {
    if |rows| == 0 then 0
    else (if Full(rows[0]) then 1 else 0) + CountFull(rows[1..])
  }

  /** The number of occupied cells of a row. */
  function Occupancy(row: CellRow): (n: nat)
    ensures n <= |row|
  {
    if |row| == 0 then 0
    else Occupancy(row[..|row| - 1]) + (if row[|row| - 1].Some? then 1 else 0)
  }

  /** The number of occupied cells of a sequence of rows. */
  function TotalOccupancy(rows: seq<CellRow>): nat {
    if |rows| == 0 then 0 else Occupancy(rows[0]) + TotalOccupancy(rows[1..])
  }

  /** Rows above or below the board read as empty through `get`. */
  lemma RowOutsideIsEmpty(c: Cells, y: int)
    requires y < 0 || y >= c.height
    ensures Row(c, y) == EmptyRow(c.width)
  {
  }

  /** An empty row of positive width is not full. */
  lemma EmptyRowNotFull(w: nat)
    requires w > 0
    ensures !Full(EmptyRow(w))
  {
    assert EmptyRow(w)[0] == None;
  }

  /**
   * The board `clear_lines` leaves behind: as many empty rows as there were full rows on top,
   * then the rows that were not full, in their original order.
   */
  function ClearedCells(c: Cells): (r: Cells)
    requires c.Valid()
    ensures r.Valid() && r.width == c.width && r.height == c.height
    ensures Rows(r) == EmptyRows(CountFull(Rows(c)), c.width) + Kept(Rows(c))
  {
    KeptCount(Rows(c));
    FromRows(c.width, c.height, EmptyRows(CountFull(Rows(c)), c.width) + Kept(Rows(c)))
  }

  /** Kept rows keep their length, and kept plus full rows account for every row. */
  lemma {:induction false} KeptCount(rows: seq<CellRow>)
    ensures |Kept(rows)| + CountFull(rows) == |rows|
    ensures forall k :: 0 <= k < |Kept(rows)| ==> Kept(rows)[k] in rows && !Full(Kept(rows)[k])
  {
    if |rows| > 0 {
      KeptCount(rows[1..]);
    }
  }

  /** The valid board whose rows are `rows`. */
  function FromRows(w: nat, h: nat, rows: seq<CellRow>): (r: Cells)
    requires |rows| == h && forall k :: 0 <= k < h ==> |rows[k]| == w
    ensures r.Valid() && r.width == w && r.height == h
    ensures Rows(r) == rows
  {
    var r := Cells(w, h, seq(w * h, i requires 0 <= i < w * h => Cell(w, h, rows, i)));
    FromRowsRows(r, rows);
    r
  }

  function Cell(w: nat, h: nat, rows: seq<CellRow>, i: int): Option<Piece>
    requires |rows| == h && forall k :: 0 <= k < h ==> |rows[k]| == w
    requires 0 <= i < w * h
  {
    var c := Cells(w, h, []);
    assert w == 0 ==> w * h == 0;
    IndexDecode(c, i);
    rows[i / w][i % w]
  }

  lemma FromRowsRows(r: Cells, rows: seq<CellRow>)
    requires |rows| == r.height && forall k :: 0 <= k < r.height ==> |rows[k]| == r.width
    requires r.cells == seq(r.width * r.height, i requires 0 <= i < r.width * r.height => Cell(r.width, r.height, rows, i))
    ensures Rows(r) == rows
  {
    forall y | 0 <= y < r.height
      ensures Rows(r)[y] == rows[y]
    {
      forall x | 0 <= x < r.width
        ensures Rows(r)[y][x] == rows[y][x]
      {
        IndexRange(r, Point(x, y));
        assert Rows(r)[y][x] == r.cells[Index(r, Point(x, y))];
      }
    }
  }

  /** A row is full exactly when all of its cells are counted as occupied. */
  lemma {:induction false} OccupancyFull(row: CellRow)
    ensures Occupancy(row) == |row| <==> Full(row)
  {
    if |row| > 0 {
      var init := row[..|row| - 1];
      OccupancyFull(init);
      assert forall x :: 0 <= x < |init| ==> init[x] == row[x];
    }
  }

  /** The inner `for x` loop of `clear_lines`: counts the colliding cells of row `y`. */
  method CountRow(c: Cells, y: int) returns (acc: nat)
    requires 0 <= y < c.height
    ensures acc == c.width <==> Full(Row(c, y))
  {
    acc := 0;
    for x := 0 to c.width
      invariant acc == Occupancy(Row(c, y)[..x])
    {
      assert Row(c, y)[..x + 1][..x] == Row(c, y)[..x];
      if Collide(c, Point(x, y)) {
        acc := acc + 1;
      }
    }
    assert Row(c, y)[..c.width] == Row(c, y);
    OccupancyFull(Row(c, y));
  }

  /** One pass of the shifting loop: row `y` takes the contents of row `y - 1` (empty above the top). */
  method CopyRow(c0: Cells, y: int) returns (c: Cells)
    requires c0.Valid() && 0 <= y < c0.height
    ensures c.Valid() && c.width == c0.width && c.height == c0.height
    ensures Row(c, y) == Row(c0, y - 1)
    ensures forall k :: k != y ==> Row(c, k) == Row(c0, k)
  {
    c := c0;
    for x := 0 to c.width
      invariant c.Valid() && c.width == c0.width && c.height == c0.height
      invariant Row(c, y) == Row(c0, y - 1)[..x] + Row(c0, y)[x..]
      invariant forall k :: k != y ==> Row(c, k) == Row(c0, k)
    {
      var above := Get(c, Point(x, y - 1));
      assert above == Row(c, y - 1)[x] == Row(c0, y - 1)[x];
      ghost var before := c;
      c := Set(c, Point(x, y), above);
      forall k
        ensures Row(c, k) == if k == y then Row(before, k)[x := above] else Row(before, k)
      {
        SetRow(before, Point(x, y), above, k);
      }
      Splice(Row(c0, y - 1), Row(c0, y), x);
    }
    assert Row(c0, y - 1)[..c.width] == Row(c0, y - 1);
  }

  lemma Splice(a: CellRow, b: CellRow, x: int)
    requires |a| == |b| && 0 <= x < |a|
    ensures (a[..x] + b[x..])[x := a[x]] == a[..x + 1] + b[x + 1..]
  {
  }

  /**
   * The shifting loop of `clear_lines`: every row from `y` up to the top takes the row above it,
   * so row `y` disappears and an empty row enters at the top.
   */
  method ShiftDown(c0: Cells, y: int) returns (c: Cells)
    requires c0.Valid() && 0 <= y < c0.height
    ensures c.Valid() && c.width == c0.width && c.height == c0.height
    ensures Rows(c) == [EmptyRow(c0.width)] + Rows(c0)[..y] + Rows(c0)[y + 1..]
  {
    c := c0;
    var y1 := y;
    while y1 != -1
      invariant -1 <= y1 <= y
      invariant c.Valid() && c.width == c0.width && c.height == c0.height
      invariant forall k {:trigger Row(c, k)} :: Row(c, k) == if y1 < k <= y then Row(c0, k - 1) else Row(c0, k)
    {
      assert Row(c, y1 - 1) == Row(c0, y1 - 1);
      c := CopyRow(c, y1);
      y1 := y1 - 1;
    }
    ShiftedRows(c0, c, y);
  }

  /** Rows described one by one as shifted down from row `y` up give the shifted row sequence. */
  lemma ShiftedRows(c0: Cells, c: Cells, y: int)
    requires c0.Valid() && c.Valid() && c.width == c0.width && c.height == c0.height && 0 <= y < c0.height
    requires forall k {:trigger Row(c, k)} :: Row(c, k) == if -1 < k <= y then Row(c0, k - 1) else Row(c0, k)
    ensures Rows(c) == [EmptyRow(c0.width)] + Rows(c0)[..y] + Rows(c0)[y + 1..]
  {
    RowOutsideIsEmpty(c0, -1);
    var expected := [EmptyRow(c0.width)] + Rows(c0)[..y] + Rows(c0)[y + 1..];
    forall k | 0 <= k < c.height
      ensures Rows(c)[k] == expected[k]
    {
      assert Rows(c)[k] == Row(c, k);
    }
  }

  /**
   * `Cells::clear_lines`, following the source: scan rows from the bottom; a full row is removed
   * by shifting everything above it down one row and the same row index is scanned again;
   * otherwise the scan moves up. Returns the number of rows removed.
   */
  method ClearLines(c0: Cells) returns (c: Cells, count: nat)
    requires c0.Valid() && c0.width > 0
    ensures c.Valid() && c.width == c0.width && c.height == c0.height
    ensures count == CountFull(Rows(c0))
    ensures Rows(c) == EmptyRows(count, c0.width) + Kept(Rows(c0))
    ensures c == ClearedCells(c0)
  {
    ghost var R := Rows(c0);
    c := c0;
    count := 0;
    var y: int := c.height - 1;
    ghost var i: int := c.height;
    assert R[..i] == R && R[i..] == [];
    while y != -1
      invariant Scanning(c, c0.width, c0.height, R, y, count, i)
      decreases y + 1 + i
    {
      c, y, count, i := ScanRow(c, c0.width, c0.height, R, y, count, i);
    }
    assert R[0..] == R && R[..0] == [];
    RowsDetermineCells(c, ClearedCells(c0));
  }

  /**
   * The state of the scan: rows below `y` are settled, `count` full rows of the original rows
   * `R[i..]` have been removed and as many empty rows entered at the top, and `R[..i]` is still
   * to be examined.
   */
  ghost predicate Scanning(c: Cells, w: nat, h: nat, R: seq<CellRow>, y: int, count: nat, i: int) {
    && c.Valid() && c.width == w && c.height == h && |R| == h
    && -1 <= y < h && 0 <= i <= h
    && Rows(c) == EmptyRows(count, w) + R[..i] + Kept(R[i..])
    && count == CountFull(R[i..])
    && (i > 0 ==> y == count + i - 1)
    && (i == 0 ==> y < count)
  }

  /** One pass of the outer loop of `clear_lines`: remove row `y` if it is full, else move up. */
  method ScanRow(c0: Cells, w: nat, h: nat, ghost R: seq<CellRow>, y0: int, count0: nat, ghost i0: int)
    returns (c: Cells, y: int, count: nat, ghost i: int)
    requires w > 0 && y0 != -1
    requires Scanning(c0, w, h, R, y0, count0, i0)
    ensures Scanning(c, w, h, R, y, count, i)
    ensures 0 <= y + 1 + i < y0 + 1 + i0
    ensures count == count0 + 1 ==> y == y0 && Rows(c) == [EmptyRow(w)] + Rows(c0)[..y0] + Rows(c0)[y0 + 1..]
    ensures count != count0 + 1 ==> count == count0 && y == y0 - 1 && c == c0
  {
    c, y, count, i := c0, y0, count0, i0;
    var acc := CountRow(c, y);
    ScannedRow(Rows(c), R, count, i, y, w);
    assert Rows(c)[y] == Row(c, y);
    EmptyRowNotFull(w);
    if acc == c.width {
      ghost var before := Rows(c);
      c := ShiftDown(c, y);
      RemoveFullRow(before, Rows(c), R, count, i, w);
      count := count + 1;
      i := i - 1;
    } else {
      if i > 0 {
        KeepRow(R, i, count, w);
        i := i - 1;
      }
      y := y - 1;
    }
  }

  /** The row the scan looks at is an inserted empty row, or the next unexamined original row. */
  lemma ScannedRow(rows: seq<CellRow>, R: seq<CellRow>, count: nat, i: int, y: int, w: nat)
    requires 0 <= i <= |R| && 0 <= y < |rows|
    requires rows == EmptyRows(count, w) + R[..i] + Kept(R[i..])
    requires i > 0 ==> y == count + i - 1
    requires i == 0 ==> y < count
    ensures i == 0 ==> rows[y] == EmptyRow(w)
    ensures i > 0 ==> rows[y] == R[i - 1]
  {
  }

  /** Removing the full original row `R[i - 1]` keeps the scan invariant with one more empty row on top. */
  lemma RemoveFullRow(before: seq<CellRow>, after: seq<CellRow>, R: seq<CellRow>, count: nat, i: int, w: nat)
    requires 0 < i <= |R| && Full(R[i - 1])
    requires before == EmptyRows(count, w) + R[..i] + Kept(R[i..])
    requires after == [EmptyRow(w)] + before[..count + i - 1] + before[count + i..]
    ensures after == EmptyRows(count + 1, w) + R[..i - 1] + Kept(R[i - 1..])
    ensures CountFull(R[i - 1..]) == CountFull(R[i..]) + 1
  {
    assert R[i - 1..][1..] == R[i..];
    assert before[..count + i - 1] == EmptyRows(count, w) + R[..i - 1];
    assert before[count + i..] == Kept(R[i..]);
    assert [EmptyRow(w)] + EmptyRows(count, w) == EmptyRows(count + 1, w);
  }

  /** Passing over the non-full original row `R[i - 1]` moves it from the unexamined part to the kept part. */
  lemma KeepRow(R: seq<CellRow>, i: int, count: nat, w: nat)
    requires 0 < i <= |R| && !Full(R[i - 1])
    ensures EmptyRows(count, w) + R[..i] + Kept(R[i..]) == EmptyRows(count, w) + R[..i - 1] + Kept(R[i - 1..])
    ensures CountFull(R[i - 1..]) == CountFull(R[i..])
  {
    assert R[i - 1..][1..] == R[i..];
    assert R[..i] == R[..i - 1] + [R[i - 1]];
  }

  /** After a clear no row is full (on a board of positive width). */
  lemma ClearedHasNoFullRow(c: Cells)
    requires c.Valid() && c.width > 0
    ensures forall y :: 0 <= y < c.height ==> !Full(Rows(ClearedCells(c))[y])
    ensures CountFull(Rows(ClearedCells(c))) == 0
  {
    var rows := Rows(ClearedCells(c));
    var n := CountFull(Rows(c));
    KeptCount(Rows(c));
    EmptyRowNotFull(c.width);
    forall y | 0 <= y < c.height
      ensures !Full(rows[y])
    {
      if y >= n {
        assert rows[y] == Kept(Rows(c))[y - n];
      }
    }
    NoFullRowCountsZero(rows);
  }

  lemma {:induction false} NoFullRowCountsZero(rows: seq<CellRow>)
    requires forall y :: 0 <= y < |rows| ==> !Full(rows[y])
    ensures CountFull(rows) == 0 && Kept(rows) == rows
  {
    if |rows| > 0 {
      NoFullRowCountsZero(rows[1..]);
      assert rows == [rows[0]] + rows[1..];
    }
  }

  /** No full row is counted only when there is no full row. */
  lemma {:induction false} CountZeroHasNoFullRow(rows: seq<CellRow>)
    requires CountFull(rows) == 0
    ensures forall y :: 0 <= y < |rows| ==> !Full(rows[y])
  {
    if |rows| > 0 {
      CountZeroHasNoFullRow(rows[1..]);
      assert forall y :: 1 <= y < |rows| ==> rows[y] == rows[1..][y - 1];
    }
  }

  /** An empty board of positive width has no full row. */
  lemma EmptyBoardHasNoFullRow(c: Cells)
    requires c.width > 0
    requires forall p :: Get(c, p) == None
    ensures CountFull(Rows(c)) == 0
  {
    forall y | 0 <= y < |Rows(c)|
      ensures !Full(Rows(c)[y])
    {
      assert Rows(c)[y][0] == None;
    }
    NoFullRowCountsZero(Rows(c));
  }

  /** Clearing twice is clearing once: the second clear removes nothing. */
  lemma ClearIdempotent(c: Cells)
    requires c.Valid() && c.width > 0
    ensures ClearedCells(ClearedCells(c)) == ClearedCells(c)
  {
    var once := ClearedCells(c);
    ClearedHasNoFullRow(c);
    NoFullRowCountsZero(Rows(once));
    assert Rows(ClearedCells(once)) == Rows(once);
    RowsDetermineCells(ClearedCells(once), once);
  }

  /** A board with no full row is left unchanged by a clear. */
  lemma ClearWithoutFullRowIsIdentity(c: Cells)
    requires c.Valid()
    requires forall y :: 0 <= y < c.height ==> !Full(Rows(c)[y])
    ensures CountFull(Rows(c)) == 0 && ClearedCells(c) == c
  {
    NoFullRowCountsZero(Rows(c));
    RowsDetermineCells(ClearedCells(c), c);
  }

  /** The storage laid out row after row. */
  function Flatten(rows: seq<CellRow>): seq<Option<Piece>> {
    if |rows| == 0 then [] else Flatten(rows[..|rows| - 1]) + rows[|rows| - 1]
  }

  /** A valid board's storage is its rows laid out one after the other. */
  lemma FlattenRows(c: Cells)
    requires c.Valid()
    ensures Flatten(Rows(c)) == c.cells
  {
    FlattenRowsPrefix(c, c.height);
    assert Rows(c)[..c.height] == Rows(c);
  }

  lemma {:induction false} FlattenRowsPrefix(c: Cells, k: nat)
    requires c.Valid() && k <= c.height
    ensures k * c.width <= |c.cells|
    ensures Flatten(Rows(c)[..k]) == c.cells[..k * c.width]
  {
    PrefixFits(c, k);
    if k > 0 {
      var lo := (k - 1) * c.width;
      FlattenRowsPrefix(c, k - 1);
      RowIsBlock(c, k - 1);
      FlattenLastRow(Rows(c), k);
      BlockEnd(c.width, k);
      PrefixSplit(c.cells, lo, lo + c.width);
    }
  }

  /** The flattened first `k` rows are the first `k - 1` rows followed by row `k - 1`. */
  lemma FlattenLastRow(rows: seq<CellRow>, k: nat)
    requires 0 < k <= |rows|
    ensures Flatten(rows[..k]) == Flatten(rows[..k - 1]) + rows[k - 1]
  {
    assert rows[..k][..k - 1] == rows[..k - 1];
  }

  /** Block `k - 1` of width `w` ends where block `k` starts. */
  lemma BlockEnd(w: nat, k: nat)
    requires k > 0
    ensures (k - 1) * w + w == k * w
  {
  }

  lemma PrefixSplit<T>(s: seq<T>, a: nat, b: nat)
    requires a <= b <= |s|
    ensures s[..b] == s[..a] + s[a..b]
  {
  }

  /** The first `k` rows fit in the storage. */
  lemma PrefixFits(c: Cells, k: nat)
    requires c.Valid() && k <= c.height
    ensures k * c.width <= |c.cells|
  {
    assert (c.height - k) * c.width == c.height * c.width - k * c.width;
    assert (c.height - k) * c.width >= 0;
  }

  /** Row `y` of a valid board is the `y`-th block of `width` storage cells. */
  lemma RowIsBlock(c: Cells, y: nat)
    requires c.Valid() && y < c.height
    ensures y * c.width + c.width <= |c.cells|
    ensures Row(c, y) == c.cells[y * c.width..y * c.width + c.width]
  {
    PrefixFits(c, y + 1);
    assert (y + 1) * c.width == y * c.width + c.width;
    var block := c.cells[y * c.width..y * c.width + c.width];
    forall x | 0 <= x < c.width
      ensures Row(c, y)[x] == block[x]
    {
      IndexRange(c, Point(x, y));
    }
  }

  lemma {:induction false} OccupancyAppend(a: CellRow, b: CellRow)
    ensures Occupancy(a + b) == Occupancy(a) + Occupancy(b)
    decreases |b|
  {
    if |b| > 0 {
      assert (a + b)[..|a + b| - 1] == a + b[..|b| - 1];
      OccupancyAppend(a, b[..|b| - 1]);
    } else {
      assert a + b == a;
    }
  }

  lemma {:induction false} TotalOccupancyAppend(a: seq<CellRow>, b: seq<CellRow>)
    ensures TotalOccupancy(a + b) == TotalOccupancy(a) + TotalOccupancy(b)
  {
    if |a| > 0 {
      assert (a + b)[1..] == a[1..] + b;
      TotalOccupancyAppend(a[1..], b);
    } else {
      assert a + b == b;
    }
  }

  lemma {:induction false} FlattenOccupancy(rows: seq<CellRow>)
    ensures Occupancy(Flatten(rows)) == TotalOccupancy(rows)
  {
    if |rows| > 0 {
      var init := rows[..|rows| - 1];
      FlattenOccupancy(init);
      OccupancyAppend(Flatten(init), rows[|rows| - 1]);
      assert rows == init + [rows[|rows| - 1]];
      TotalOccupancyAppend(init, [rows[|rows| - 1]]);
    }
  }

  lemma {:induction false} EmptyRowsOccupancy(n: nat, w: nat)
    ensures TotalOccupancy(EmptyRows(n, w)) == 0
  {
    if n > 0 {
      assert EmptyRows(n, w)[1..] == EmptyRows(n - 1, w);
      EmptyRowOccupancy(w);
      EmptyRowsOccupancy(n - 1, w);
    }
  }

  lemma {:induction false} EmptyRowOccupancy(w: nat)
    ensures Occupancy(EmptyRow(w)) == 0
  {
    if w > 0 {
      assert EmptyRow(w)[..w - 1] == EmptyRow(w - 1);
      EmptyRowOccupancy(w - 1);
    }
  }

  /** Dropping the full rows removes exactly `width` occupied cells per full row. */
  lemma {:induction false} KeptOccupancy(rows: seq<CellRow>, w: nat)
    requires forall k :: 0 <= k < |rows| ==> |rows[k]| == w
    ensures TotalOccupancy(Kept(rows)) + w * CountFull(rows) == TotalOccupancy(rows)
  {
    if |rows| > 0 {
      var n := CountFull(rows[1..]);
      KeptOccupancy(rows[1..], w);
      KeptStep(rows, w);
      MulSucc(w, n);
    }
  }

  /** One row of the induction behind `KeptOccupancy`: a full row moves `w` cells into the cleared count. */
  lemma KeptStep(rows: seq<CellRow>, w: nat)
    requires |rows| > 0 && |rows[0]| == w
    ensures Full(rows[0]) ==>
              && TotalOccupancy(Kept(rows)) == TotalOccupancy(Kept(rows[1..]))
              && CountFull(rows) == CountFull(rows[1..]) + 1
              && TotalOccupancy(rows) == w + TotalOccupancy(rows[1..])
    ensures !Full(rows[0]) ==>
              && TotalOccupancy(Kept(rows)) == Occupancy(rows[0]) + TotalOccupancy(Kept(rows[1..]))
              && CountFull(rows) == CountFull(rows[1..])
              && TotalOccupancy(rows) == Occupancy(rows[0]) + TotalOccupancy(rows[1..])
  {
    OccupancyFull(rows[0]);
    var head := if Full(rows[0]) then [] else [rows[0]];
    TotalOccupancyAppend(head, Kept(rows[1..]));
    assert Kept(rows) == head + Kept(rows[1..]);
  }

  lemma MulSucc(w: nat, n: nat)
    ensures w * (n + 1) == w * n + w
  {
  }

  /** The number of occupied cells drops by exactly `width` times the number of rows cleared. */
  lemma ClearedOccupancy(c: Cells)
    requires c.Valid()
    ensures Occupancy(ClearedCells(c).cells) + c.width * CountFull(Rows(c)) == Occupancy(c.cells)
  {
    var r := ClearedCells(c);
    FlattenRows(c);
    FlattenRows(r);
    FlattenOccupancy(Rows(c));
    FlattenOccupancy(Rows(r));
    TotalOccupancyAppend(EmptyRows(CountFull(Rows(c)), c.width), Kept(Rows(c)));
    EmptyRowsOccupancy(CountFull(Rows(c)), c.width);
    KeptOccupancy(Rows(c), c.width);
  }
}
