/** `Board`: the piece-level view of the cells: collision, freezing and the hard-drop descent (src/main.rs). */
module Board {
  import opened Wrappers
  import opened Pieces
  import opened ActivePieces
  import opened Grid

  /** `Board::collide`: some cell of the piece's shape collides. */
  predicate Collides(c: Cells, a: ActivePiece) {
    exists k :: 0 <= k < |Shape(a)| && Collide(c, Shape(a)[k])
  }

  /** A piece whose top row is at or below the floor collides, so every descent ends. */
  lemma BelowFloorCollides(c: Cells, a: ActivePiece)
    requires a.position.y >= c.height
    ensures Collides(c, a)
  {
    assert Collide(c, Shape(a)[0]);
  }

  /** A piece that does not collide has its top row above the floor. */
  lemma FreeIsAboveFloor(c: Cells, a: ActivePiece)
    ensures !Collides(c, a) ==> a.position.y < c.height
  {
    if a.position.y >= c.height {
      BelowFloorCollides(c, a);
    }
  }

  /** A piece at the spawn point never collides with an empty board of the engine's width. */
  lemma SpawnFitsEmptyBoard(c: Cells, p: Piece)
    requires c.width == BoardWidth && c.height > 0
    requires forall q :: Get(c, q) == None
    ensures !Collides(c, Spawn(p))
  {
    var a := Spawn(p);
    forall k | 0 <= k < |Shape(a)|
      ensures !Collide(c, Shape(a)[k])
    {
    }
  }

  /** `Board::freeze`: writes the piece into every cell of its shape that lies on the board. */
  function Freeze(c: Cells, a: ActivePiece): (r: Cells)
    ensures SameShape(c, r)
    ensures c.Valid() ==>
              forall q :: Get(r, q) == if InBounds(c, q) && q in Shape(a) then Some(a.piece) else Get(c, q)
  {
    FreezeCells(c, Shape(a), a.piece)
  }

  /** The `for p in piece.shape()` loop of `Board::freeze`. */
  function FreezeCells(c: Cells, cells: seq<Point>, p: Piece): (r: Cells)
    ensures SameShape(c, r)
    ensures c.Valid() ==>
              forall q :: Get(r, q) == if InBounds(c, q) && q in cells then Some(p) else Get(c, q)
    decreases |cells|
  {
    if |cells| == 0 then c
    else
      var r := FreezeCells(Set(c, cells[0], Some(p)), cells[1..], p);
      assert forall q :: q in cells <==> q == cells[0] || q in cells[1..];
      r
  }

  /** The piece moved to row `y`, column and rotation kept. */
  function AtRow(a: ActivePiece, y: int): ActivePiece {
    a.(position := Point(a.position.x, y))
  }

  /**
   * The hard-drop loop of `Tetris::tick`: `while !collide(next) { piece = next; next = piece.lower() }`.
   * Started with `next == piece`, it returns the piece itself if that already collides, and otherwise
   * the lowest position reached by moving down one row at a time without colliding.
   */
  function Land(c: Cells, piece: ActivePiece, next: ActivePiece): (r: ActivePiece)
    requires next == piece || (next == Lower(piece) && !Collides(c, piece))
    ensures r == AtRow(piece, r.position.y) && r.position.y >= piece.position.y
    ensures Collides(c, next) ==> r == piece
    ensures !Collides(c, next) ==> !Collides(c, r) && Collides(c, Lower(r))
    ensures !Collides(c, piece) ==>
              forall y :: piece.position.y <= y <= r.position.y ==> !Collides(c, AtRow(piece, y))
    decreases c.height - next.position.y
  {
    if Collides(c, next) then
      piece
    else
      FreeIsAboveFloor(c, next);
      var r := Land(c, next, Lower(next));
      assert next == AtRow(piece, next.position.y);
      assert forall y :: next.position.y <= y <= r.position.y ==> AtRow(next, y) == AtRow(piece, y);
      r
  }

  /** Landing from a free position: the result is the first position above a collision. */
  lemma LandIsLowestFree(c: Cells, a: ActivePiece)
    requires !Collides(c, a)
    ensures var r := Land(c, a, a);
            && r.piece == a.piece && r.rotation == a.rotation && r.position.x == a.position.x
            && r.position.y >= a.position.y
            && !Collides(c, r) && Collides(c, Lower(r))
            && forall y :: a.position.y <= y <= r.position.y ==> !Collides(c, AtRow(a, y))
  {
    var r := Land(c, a, a);
    assert r == AtRow(a, r.position.y);
  }
}
