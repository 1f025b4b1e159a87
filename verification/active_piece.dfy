/** `ActivePiece`: the falling piece and its pure move, rotate and drop transformers (src/main.rs). */
module ActivePieces {
  import opened Pieces

  /** `usize` on the 32-bit WebAssembly target. */
  const UsizeModulus: int := 0x1_0000_0000
  type Usize = x: int | 0 <= x < UsizeModulus

  /** The falling piece. The animation offset `fine_y` is a float and is not modelled. */
  datatype ActivePiece = ActivePiece(piece: Piece, position: Point, rotation: Usize, dropping: bool)

  /** The spawn point of every new piece. */
  const SpawnPosition: Point := Point(3, -3)

  /** `ActivePiece::new`. */
  function Spawn(p: Piece): (r: ActivePiece)
    ensures r.piece == p && !r.dropping
    ensures ShapeIndex(r) == 0
  {
    ActivePiece(p, SpawnPosition, 0, false)
  }

  /** The entry of the rotation table that `shape` uses. */
  function ShapeIndex(a: ActivePiece): (k: nat)
    ensures k < |Shapes(a.piece)|
  {
    a.rotation % |Shapes(a.piece)|
  }

  /** `ActivePiece::shape`: the table entry for the rotation, translated by the position. */
  function Shape(a: ActivePiece): (r: seq<Point>)
    ensures |r| == 4
    ensures forall k :: 0 <= k < |r| ==>
              a.position.x <= r[k].x <= a.position.x + 3 && a.position.y <= r[k].y <= a.position.y + 3
  {
    var cells := Shapes(a.piece)[ShapeIndex(a)];
    seq(|cells|, k requires 0 <= k < |cells| => cells[k].Add(a.position))
  }

  /** `ActivePiece::do_move`: every cell of the shape moves by the offset, in the same order. */
  function DoMove(a: ActivePiece, offset: Point): (r: ActivePiece)
    ensures r.piece == a.piece && r.rotation == a.rotation && r.dropping == a.dropping
    ensures forall k :: 0 <= k < 4 ==> Shape(r)[k] == Shape(a)[k].Add(offset)
  {
    a.(position := a.position.Add(offset))
  }

  /** `ActivePiece::lower`: one row down (it also zeroes `fine_y`, which is not modelled). */
  function Lower(a: ActivePiece): (r: ActivePiece)
    ensures r.piece == a.piece && r.rotation == a.rotation && r.dropping == a.dropping
    ensures forall k :: 0 <= k < 4 ==> Shape(r)[k] == Point(Shape(a)[k].x, Shape(a)[k].y + 1)
  {
    DoMove(a, MoveDown)
  }

  /** `ActivePiece::drop`: marks the piece for a hard drop and leaves its cells where they are. */
  function Drop(a: ActivePiece): (r: ActivePiece)
    ensures r.dropping && Shape(r) == Shape(a)
    ensures r.piece == a.piece && r.rotation == a.rotation && r.position == a.position
  {
    a.(dropping := true)
  }

  /**
   * `ActivePiece::rotate_clockwise`: `rotation += 1` on a `usize`, wrapping as a release build
   * does; the shape becomes the next entry of the rotation table, cyclically.
   */
  function RotateClockwise(a: ActivePiece): (r: ActivePiece)
    ensures r.piece == a.piece && r.position == a.position && r.dropping == a.dropping
    ensures ShapeIndex(r) == (ShapeIndex(a) + 1) % |Shapes(a.piece)|
  {
    WrapUp(a.rotation, |Shapes(a.piece)|);
    a.(rotation := (a.rotation + 1) % UsizeModulus)
  }

  /**
   * `ActivePiece::rotate_counterclockwise`: `rotation -= 1`, which underflows at 0 and wraps to
   * `usize::MAX`; the shape becomes the previous entry of the rotation table, cyclically. At 0
   * that is still the last entry, because 2^32 is a multiple of every table length (1, 2 or 4).
   */
  function RotateCounterClockwise(a: ActivePiece): (r: ActivePiece)
    ensures r.piece == a.piece && r.position == a.position && r.dropping == a.dropping
    ensures ShapeIndex(r) == (ShapeIndex(a) + |Shapes(a.piece)| - 1) % |Shapes(a.piece)|
  {
    WrapDown(a.rotation, |Shapes(a.piece)|);
    a.(rotation := (a.rotation - 1) % UsizeModulus)
  }

  /** Moving translates every cell of the shape by the offset and keeps its order. */
  lemma MoveTranslatesShape(a: ActivePiece, offset: Point)
    ensures |Shape(DoMove(a, offset))| == |Shape(a)|
    ensures forall k :: 0 <= k < |Shape(a)| ==> Shape(DoMove(a, offset))[k] == Shape(a)[k].Add(offset)
  {
  }

  /** A move left is undone by a move right, and the other way round. */
  lemma MoveLeftRightInverse(a: ActivePiece)
    ensures DoMove(DoMove(a, MoveLeft), MoveRight) == a
    ensures DoMove(DoMove(a, MoveRight), MoveLeft) == a
  {
  }

  /** The two rotations undo each other, including across the `usize` wrap at 0. */
  lemma RotationsInverse(a: ActivePiece)
    ensures RotateClockwise(RotateCounterClockwise(a)) == a
    ensures RotateCounterClockwise(RotateClockwise(a)) == a
  {
    WrapInverse(a.rotation);
  }

  /** Adding and subtracting one modulo 2^32 undo each other. */
  lemma WrapInverse(r: Usize)
    ensures ((r - 1) % UsizeModulus + 1) % UsizeModulus == r
    ensures ((r + 1) % UsizeModulus - 1) % UsizeModulus == r
  {
    if r == 0 {
      assert (r - 1) % UsizeModulus == UsizeModulus - 1;
    } else if r == UsizeModulus - 1 {
      assert (r + 1) % UsizeModulus == 0;
    }
  }

  /** Wrapping at 2^32 keeps residues modulo a table length, since every length divides 2^32. */
  lemma WrapUp(r: Usize, n: int)
    requires n == 1 || n == 2 || n == 4
    ensures ((r + 1) % UsizeModulus) % n == (r % n + 1) % n
  {
    if r == UsizeModulus - 1 {
      assert (r + 1) % UsizeModulus == 0;
      assert r % 2 == 1 && r % 4 == 3;
    } else {
      assert (r + 1) % UsizeModulus == r + 1;
      if n == 2 {
        Residues2(r);
      } else if n == 4 {
        Residues4(r);
      }
    }
  }

  lemma WrapDown(r: Usize, n: int)
    requires n == 1 || n == 2 || n == 4
    ensures ((r - 1) % UsizeModulus) % n == (r % n + n - 1) % n
  {
    if r == 0 {
      assert (r - 1) % UsizeModulus == UsizeModulus - 1;
      assert (UsizeModulus - 1) % 2 == 1 && (UsizeModulus - 1) % 4 == 3;
    } else {
      assert (r - 1) % UsizeModulus == r - 1;
      if n == 2 {
        Residues2(r);
      } else if n == 4 {
        Residues4(r);
      }
    }
  }

  /** Neighbouring residues modulo 2. */
  lemma Residues2(r: int)
    ensures (r + 1) % 2 == (r % 2 + 1) % 2
    ensures (r - 1) % 2 == (r % 2 + 1) % 2
  {
    var q := r / 2;
    assert r == 2 * q + r % 2;
    assert r + 1 == 2 * q + (r % 2 + 1);
    assert r - 1 == 2 * (q - 1) + (r % 2 + 1);
  }

  /** Neighbouring residues modulo 4. */
  lemma Residues4(r: int)
    ensures (r + 1) % 4 == (r % 4 + 1) % 4
    ensures (r - 1) % 4 == (r % 4 + 3) % 4
  {
    var q := r / 4;
    assert r == 4 * q + r % 4;
    assert r + 1 == 4 * q + (r % 4 + 1);
    assert r - 1 == 4 * (q - 1) + (r % 4 + 3);
  }
}
