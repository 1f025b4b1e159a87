/** The seven tetrominoes, their rotation tables and the grid point type (src/main.rs). */
module Pieces {

  /** `Point<i32>`; coordinates are unbounded here (see README, Left out). */
  datatype Point = Point(x: int, y: int) {
    function Add(d: Point): Point {
      Point(x + d.x, y + d.y)
    }
  }

  const MoveLeft: Point := Point(-1, 0)
  const MoveRight: Point := Point(1, 0)
  const MoveDown: Point := Point(0, 1)

  datatype Piece = I | O | T | S | Z | J | L

  /** The bag `PieceSack::fill` draws from, in the source's order. */
  const AllPieces: seq<Piece> := [I, O, T, S, Z, J, L]

  const IShape: seq<seq<Point>> :=
    [[Point(1, 0), Point(1, 1), Point(1, 2), Point(1, 3)],
     [Point(0, 1), Point(1, 1), Point(2, 1), Point(3, 1)]]
  const OShape: seq<seq<Point>> :=
    [[Point(1, 2), Point(1, 3), Point(2, 2), Point(2, 3)]]
  const TShape: seq<seq<Point>> :=
    [[Point(1, 3), Point(2, 3), Point(3, 3), Point(2, 2)],
     [Point(1, 1), Point(1, 2), Point(1, 3), Point(2, 2)],
     [Point(1, 1), Point(2, 1), Point(3, 1), Point(2, 2)],
     [Point(3, 1), Point(3, 2), Point(3, 3), Point(2, 2)]]
  const SShape: seq<seq<Point>> :=
    [[Point(0, 3), Point(1, 2), Point(1, 3), Point(2, 2)],
     [Point(0, 1), Point(0, 2), Point(1, 2), Point(1, 3)]]
  const ZShape: seq<seq<Point>> :=
    [[Point(1, 2), Point(2, 2), Point(2, 3), Point(3, 3)],
     [Point(3, 1), Point(2, 2), Point(3, 2), Point(2, 3)]]
  const JShape: seq<seq<Point>> :=
    [[Point(1, 3), Point(2, 1), Point(2, 2), Point(2, 3)],
     [Point(1, 2), Point(1, 3), Point(2, 3), Point(3, 3)],
     [Point(1, 1), Point(1, 2), Point(1, 3), Point(2, 1)],
     [Point(1, 1), Point(2, 1), Point(3, 1), Point(3, 2)]]
  const LShape: seq<seq<Point>> :=
    [[Point(1, 1), Point(1, 2), Point(1, 3), Point(2, 3)],
     [Point(1, 1), Point(1, 2), Point(2, 1), Point(3, 1)],
     [Point(3, 1), Point(3, 2), Point(3, 3), Point(2, 1)],
     [Point(3, 2), Point(1, 3), Point(2, 3), Point(3, 3)]]

  /** A rotation of a piece: four cells inside the 4x4 box anchored at the piece position. */
  ghost predicate WellShaped(cells: seq<Point>) {
    && |cells| == 4
    && forall k :: 0 <= k < |cells| ==> 0 <= cells[k].x <= 3 && 0 <= cells[k].y <= 3
  }

  /** `Piece::shapes`: the rotation table of a piece. */
  function Shapes(p: Piece): (r: seq<seq<Point>>)
    ensures |r| == 1 || |r| == 2 || |r| == 4
    ensures forall k :: 0 <= k < |r| ==> WellShaped(r[k])
  {
    match p
    case I => IShape
    case O => OShape
    case T => TShape
    case S => SShape
    case Z => ZShape
    case J => JShape
    case L => LShape
  }

  /** The name the engine's serializer gives a piece; the coordinator switches on it. */
  function Name(p: Piece): string {
    match p
    case I => "I"
    case O => "O"
    case T => "T"
    case S => "S"
    case Z => "Z"
    case J => "J"
    case L => "L"
  }

  /** Distinct pieces are serialized under distinct names. */
  lemma NameInjective(p: Piece, q: Piece)
    ensures Name(p) == Name(q) ==> p == q
  {
  }

  /** The bag holds every piece exactly once. */
  lemma AllPiecesComplete(p: Piece)
    ensures multiset(AllPieces)[p] == 1
  {
  }
}
