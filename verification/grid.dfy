/** `Cells`: the flat board storage indexed `y * width + x`, and its row view (src/main.rs). */
module Grid {
  import opened Wrappers
  import opened Pieces

  /** Board dimensions fixed by `Tetris::new`. */
  const BoardWidth: nat := 10
  const BoardHeight: nat := 20

  /** A committed block as reported to the coordinator: a cell and the piece that filled it. */
  datatype Block = Block(point: Point, piece: Piece)

  /** `Cells`: `width * height` cells in row-major order. */
  datatype Cells = Cells(width: nat, height: nat, cells: seq<Option<Piece>>) {
    ghost predicate Valid() {
      |cells| == width * height
    }
  }

  /** Two boards of the same size. */
  ghost predicate SameShape(a: Cells, b: Cells) {
    a.width == b.width && a.height == b.height && a.Valid() == b.Valid()
  }

  predicate InBounds(c: Cells, p: Point) {
    0 <= p.x < c.width && 0 <= p.y < c.height
  }

  /** The row-major index of an in-bounds point. */
  function Index(c: Cells, p: Point): int
    requires InBounds(c, p)
  {
    p.y * c.width + p.x
  }

  /** `Cells::new`: every cell empty. */
  function New(width: nat, height: nat): (r: Cells)
    ensures r.Valid() && r.width == width && r.height == height
    ensures forall p :: Get(r, p) == None
  {
    Cells(width, height, seq(width * height, _ => None))
  }

  /** `Cells::get`: the cell at an in-bounds point, `None` anywhere else. */
  function Get(c: Cells, p: Point): (r: Option<Piece>)
    ensures !InBounds(c, p) ==> r == None
  {
    if InBounds(c, p) && Index(c, p) < |c.cells| then c.cells[Index(c, p)] else None
  }

  /**
   * `Cells::collide`: a point collides when it lies left, right or below the board, or on an
   * occupied cell; a point above the board inside its columns never collides.
   */
  function Collide(c: Cells, p: Point): (r: bool)
    ensures 0 <= p.x < c.width && p.y < 0 ==> !r
    ensures p.x < 0 || p.x >= c.width || p.y >= c.height ==> r
    ensures InBounds(c, p) ==> (r <==> Get(c, p).Some?)
  {
    if p.y < 0 && 0 <= p.x < c.width then
      false
    else if p.x < 0 || p.x >= c.width || p.y >= c.height then
      true
    else
      var index := p.y * c.width + p.x;
      index < |c.cells| && c.cells[index].Some?
  }

  /**
   * `Cells::set`: an out-of-bounds write is ignored; an in-bounds write changes exactly that cell.
   */
  function Set(c: Cells, p: Point, v: Option<Piece>): (r: Cells)
    ensures SameShape(c, r)
    ensures !InBounds(c, p) ==> r == c
    ensures c.Valid() ==> forall q :: Get(r, q) == if InBounds(c, p) && q == p then v else Get(c, q)
  {
    if InBounds(c, p) && Index(c, p) < |c.cells| then
      var r := c.(cells := c.cells[Index(c, p) := v]);
      SetGet(c, r, p, v);
      r
    else
      ValidIndex(c, p);
      c
  }

  /** On a valid board every in-bounds point has a storage cell. */
  lemma ValidIndex(c: Cells, p: Point)
    ensures c.Valid() && InBounds(c, p) ==> Index(c, p) < |c.cells|
  {
    if c.Valid() && InBounds(c, p) {
      IndexRange(c, p);
    }
  }

  lemma SetGet(c: Cells, r: Cells, p: Point, v: Option<Piece>)
    requires InBounds(c, p) && Index(c, p) < |c.cells|
    requires r == c.(cells := c.cells[Index(c, p) := v])
    ensures forall q :: Get(r, q) == if q == p then v else Get(c, q)
  {
    forall q
      ensures Get(r, q) == if q == p then v else Get(c, q)
    {
      SetGetAt(c, r, p, v, q);
    }
  }

  lemma SetGetAt(c: Cells, r: Cells, p: Point, v: Option<Piece>, q: Point)
    requires InBounds(c, p) && Index(c, p) < |c.cells|
    requires r == c.(cells := c.cells[Index(c, p) := v])
    ensures Get(r, q) == if q == p then v else Get(c, q)
  {
    if InBounds(c, q) {
      SameIndexSamePoint(c, p, q);
    }
  }

  lemma SameIndexSamePoint(c: Cells, p: Point, q: Point)
    requires InBounds(c, p) && InBounds(c, q)
    ensures Index(c, p) == Index(c, q) <==> p == q
  {
    if Index(c, p) == Index(c, q) {
      IndexInjective(c.width, p.x, p.y, q.x, q.y);
    }
  }

  /** `Cells::clear`: every cell emptied, the size kept. */
  function Clear(c: Cells): (r: Cells)
    ensures SameShape(c, r)
    ensures forall p :: Get(r, p) == None
  {
    c.(cells := seq(|c.cells|, _ => None))
  }

  /** Distinct in-bounds points have distinct row-major indices. */
  lemma IndexInjective(w: nat, x1: int, y1: int, x2: int, y2: int)
    requires 0 <= x1 < w && 0 <= x2 < w
    requires y1 * w + x1 == y2 * w + x2
    ensures x1 == x2 && y1 == y2
  {
    assert (y1 - y2) * w == x2 - x1;
    assert (y2 - y1) * w == x1 - x2;
    if y1 > y2 {
      MulAtLeast(y1 - y2, w);
    } else if y2 > y1 {
      MulAtLeast(y2 - y1, w);
    }
  }

  lemma MulAtLeast(a: int, w: nat)
    requires a >= 1
    ensures a * w >= w
  {
  }

  /** In-bounds points index inside the storage, and the index decodes back to the point. */
  lemma IndexRange(c: Cells, p: Point)
    requires InBounds(c, p)
    ensures 0 <= Index(c, p) < c.width * c.height
    ensures Index(c, p) / c.width == p.y && Index(c, p) % c.width == p.x
  {
    var i := Index(c, p);
    MulAtLeast(c.height - p.y, c.width);
    assert (c.height - p.y) * c.width == c.height * c.width - p.y * c.width;
    IndexInjective(c.width, i % c.width, i / c.width, p.x, p.y);
  }

  /** Every storage index is the index of the point `(i % width, i / width)`. */
  lemma IndexDecode(c: Cells, i: int)
    requires c.width > 0 && 0 <= i < c.width * c.height
    ensures InBounds(c, Point(i % c.width, i / c.width))
    ensures Index(c, Point(i % c.width, i / c.width)) == i
  {
    var y := i / c.width;
    assert (y - c.height + 1) * c.width == y * c.width - c.height * c.width + c.width;
    if y >= c.height {
      MulAtLeast(y - c.height + 1, c.width);
    }
  }

  /** Row `y` seen through `get`; rows outside the board read as empty. */
  function Row(c: Cells, y: int): (r: seq<Option<Piece>>)
    ensures |r| == c.width
  {
    seq(c.width, x => Get(c, Point(x, y)))
  }

  /** An in-bounds write changes one cell of one row. */
  lemma SetRow(c: Cells, p: Point, v: Option<Piece>, k: int)
    requires c.Valid() && InBounds(c, p)
    ensures Row(Set(c, p, v), k) == if k == p.y then Row(c, k)[p.x := v] else Row(c, k)
  {
    var r := Set(c, p, v);
    assert forall x :: 0 <= x < c.width ==> Row(r, k)[x] == Get(r, Point(x, k));
  }

  /** The board as a sequence of rows, top row first. */
  function Rows(c: Cells): (r: seq<seq<Option<Piece>>>)
    ensures |r| == c.height
  {
    seq(c.height, y => Row(c, y))
  }

  /** A valid board is determined by its size and its rows. */
  lemma RowsDetermineCells(a: Cells, b: Cells)
    requires a.Valid() && b.Valid() && a.width == b.width && a.height == b.height
    requires Rows(a) == Rows(b)
    ensures a == b
  {
    forall i | 0 <= i < |a.cells|
      ensures a.cells[i] == b.cells[i]
    {
      var p := Point(i % a.width, i / a.width);
      IndexDecode(a, i);
      assert Rows(a)[p.y][p.x] == Get(a, p);
      assert Rows(b)[p.y][p.x] == Get(b, p);
    }
  }

  /** `Cells::points`: every occupied cell in storage order, decoded with a fixed row width of 10. */
  function Points(c: Cells): seq<Block> {
    PointsUpTo(c.cells, |c.cells|)
  }

  function PointsUpTo(cells: seq<Option<Piece>>, n: nat): (r: seq<Block>)
    requires n <= |cells|
    ensures forall b :: b in r <==>
              exists i :: 0 <= i < n && cells[i] == Some(b.piece) && b.point == Point(i % 10, i / 10)
  {
    if n == 0 then []
    else
      var rest := PointsUpTo(cells, n - 1);
      match cells[n - 1]
      case None => rest
      case Some(p) => rest + [Block(Point((n - 1) % 10, (n - 1) / 10), p)]
  }

  /** On a board of the engine's width, the reported blocks are exactly the occupied cells. */
  lemma PointsAreOccupiedCells(c: Cells, b: Block)
    requires c.Valid() && c.width == BoardWidth
    ensures b in Points(c) <==> InBounds(c, b.point) && Get(c, b.point) == Some(b.piece)
  {
    if b in Points(c) {
      var i :| 0 <= i < |c.cells| && c.cells[i] == Some(b.piece) && b.point == Point(i % 10, i / 10);
      IndexDecode(c, i);
    }
    if InBounds(c, b.point) && Get(c, b.point) == Some(b.piece) {
      var i := Index(c, b.point);
      IndexRange(c, b.point);
      assert c.cells[i] == Some(b.piece) && b.point == Point(i % 10, i / 10);
    }
  }
}
