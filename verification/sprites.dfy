/**
 * Sprite lookup and block drawing of `TetrisGame` (`getSpriteData`, `getSkirtColor`,
 * `drawBlocks`). The two front ends use different sprite sheets, so the column table depends
 * on the variant: `App` is static/app/tetris.jsx, `Static` is static/tetris.jsx.
 */
module Sprites {
  import opened Wrappers
  import opened Pieces

  datatype Variant = App | Static

  /** Side of a sprite-sheet cell and of a board cell, in pixels (`this.width`, `this.height`). */
  const CellSize: real := 50.0

  /** Sheet column of the empty-cell sprite that `renderBackground` tiles. */
  const BackgroundColumn: nat := 7

  /** Border drawn around each block in the app variant (`skirtSize`). */
  const SkirtSize: real := 5.0

  /** The message thrown for a piece name outside the table. */
  function InvalidBlock(name: string): string {
    "Invalid Block Type " + name
  }

  /** `getSpriteData`: the sheet column of a piece name; any other name throws. */
  function SpriteColumn(v: Variant, name: string): (r: Result<nat, string>)
    ensures r.Failure? ==> r.error == InvalidBlock(name)
  {
    match v
    case App =>
      (match name
       case "T" => Success(6)
       case "S" => Success(0)
       case "I" => Success(3)
       case "Z" => Success(2)
       case "L" => Success(5)
       case "J" => Success(4)
       case "O" => Success(1)
       case _ => Failure(InvalidBlock(name)))
    case Static =>
      (match name
       case "T" => Success(0)
       case "S" => Success(1)
       case "I" => Success(2)
       case "Z" => Success(3)
       case "L" => Success(4)
       case "J" => Success(5)
       case "O" => Success(6)
       case _ => Failure(InvalidBlock(name)))
  }

  /** `getSkirtColor` of the app variant: the border colour of a piece name; any other name throws. */
  function SkirtColor(name: string): (r: Result<string, string>)
    ensures r.Failure? ==> r.error == InvalidBlock(name)
  {
    match name
    case "T" => Success("#d8f")
    case "S" => Success("#8f8")
    case "I" => Success("#8ff")
    case "Z" => Success("#f88")
    case "L" => Success("#fd8")
    case "J" => Success("#88f")
    case "O" => Success("#ff8")
    case _ => Failure(InvalidBlock(name))
  }

  /** The piece drawn from a sheet column, if any: the inverse of the column table. */
  function PieceAtColumn(v: Variant, column: nat): (r: Option<Piece>)
    ensures r.Some? <==> column < 7
  {
    if column >= 7 then None
    else match v
      case App => Some([S, O, Z, I, J, L, T][column])
      case Static => Some([T, S, I, Z, L, J, O][column])
  }

  /**
   * Every piece the engine reports has a sprite: its column lies on the sheet, is not the
   * background column, and maps back to the piece.
   */
  lemma SpriteColumnRoundTrip(v: Variant, p: Piece)
    ensures SpriteColumn(v, Name(p)).Success?
    ensures SpriteColumn(v, Name(p)).value < BackgroundColumn
    ensures PieceAtColumn(v, SpriteColumn(v, Name(p)).value) == Some(p)
  {
  }

  /** Each column shows one piece, and each sheet column below the background is used. */
  lemma ColumnsAreAPermutation(v: Variant, column: nat)
    requires column < BackgroundColumn
    ensures SpriteColumn(v, Name(PieceAtColumn(v, column).value)) == Success(column)
  {
  }

  /** A name gets a sprite exactly when it is the name of a piece. */
  lemma SpriteIffPieceName(v: Variant, name: string)
    ensures SpriteColumn(v, name).Success? <==> exists p :: name == Name(p)
  {
    if SpriteColumn(v, name).Success? {
      var p := PieceAtColumn(v, SpriteColumn(v, name).value).value;
      assert name == Name(p);
    }
  }

  /** Different pieces get different sprites. */
  lemma SpritesDistinguishPieces(v: Variant, p: Piece, q: Piece)
    ensures SpriteColumn(v, Name(p)) == SpriteColumn(v, Name(q)) ==> p == q
  {
    SpriteColumnRoundTrip(v, p);
    SpriteColumnRoundTrip(v, q);
  }

  /** The two sprite sheets are laid out differently: no piece has the same column in both. */
  lemma VariantsDisagreeOnEveryPiece(p: Piece)
    ensures SpriteColumn(App, Name(p)) != SpriteColumn(Static, Name(p))
  {
  }

  /** Every piece has a skirt colour, a name gets one exactly when it names a piece, and the colours differ. */
  lemma SkirtColorsDistinguishPieces(p: Piece, q: Piece, name: string)
    ensures SkirtColor(Name(p)).Success?
    ensures SkirtColor(name).Success? <==> exists r :: name == Name(r)
    ensures SkirtColor(Name(p)) == SkirtColor(Name(q)) ==> p == q
  {
    if SkirtColor(name).Success? {
      var r :| r in [I, O, T, S, Z, J, L] && name == Name(r);
    }
  }

  /** A block as serialised to JavaScript: a point with float coordinates and the piece's name. */
  datatype JsBlock = JsBlock(x: real, y: real, piece: string)

  /** The canvas calls `drawBlocks` makes. */
  datatype DrawOp =
    | FillRect(x: real, y: real, w: real, h: real, colour: string)
    | DrawSprite(column: nat, x: real, y: real)

  /** The sprite calls of the second loop of `drawBlocks`, stopping at the first unknown name. */
  function SpriteOps(v: Variant, blocks: seq<JsBlock>): (r: Result<seq<DrawOp>, string>)
    ensures r.Success? <==> forall k :: 0 <= k < |blocks| ==> SpriteColumn(v, blocks[k].piece).Success?
    ensures r.Success? ==> |r.value| == |blocks|
    ensures r.Success? ==>
              forall k :: 0 <= k < |blocks| ==>
                r.value[k] == DrawSprite(SpriteColumn(v, blocks[k].piece).value,
                                         blocks[k].x * CellSize, blocks[k].y * CellSize)
    decreases |blocks|
  {
    if |blocks| == 0 then Success([])
    else
      var b := blocks[0];
      var column :- SpriteColumn(v, b.piece);
      var rest :- SpriteOps(v, blocks[1..]);
      assert forall k :: 1 <= k < |blocks| ==> blocks[k] == blocks[1..][k - 1];
      Success([DrawSprite(column, b.x * CellSize, b.y * CellSize)] + rest)
  }

  /** The border rectangles of the app variant's first loop, one per block. */
  function SkirtOps(blocks: seq<JsBlock>, colour: string): (r: seq<DrawOp>)
    ensures |r| == |blocks|
    ensures forall k :: 0 <= k < |blocks| ==>
              r[k] == FillRect(blocks[k].x * CellSize - SkirtSize, blocks[k].y * CellSize - SkirtSize,
                               CellSize + SkirtSize * 2.0, CellSize + SkirtSize * 2.0, colour)
  {
    seq(|blocks|, k requires 0 <= k < |blocks| =>
      FillRect(blocks[k].x * CellSize - SkirtSize, blocks[k].y * CellSize - SkirtSize,
               CellSize + SkirtSize * 2.0, CellSize + SkirtSize * 2.0, colour))
  }

  /**
   * `drawBlocks`: in the app variant, when a skirt colour is given, a border under every block
   * first; then every block's sprite. The static variant draws sprites only. Any unknown piece
   * name throws.
   */
  function DrawBlocks(v: Variant, blocks: seq<JsBlock>, skirt: Option<string>): (r: Result<seq<DrawOp>, string>)
    ensures r.Success? <==> forall k :: 0 <= k < |blocks| ==> SpriteColumn(v, blocks[k].piece).Success?
    ensures r.Success? ==> |r.value| == (if v == App && skirt.Some? then 2 else 1) * |blocks|
  {
    var sprites :- SpriteOps(v, blocks);
    if v == App && skirt.Some? then Success(SkirtOps(blocks, skirt.value) + sprites)
    else Success(sprites)
  }

  /**
   * Drawing succeeds exactly when every block names a piece; every block then gets exactly one
   * sprite, in order, and borders (app variant with a colour) all come before the sprites.
   */
  lemma DrawBlocksLayers(v: Variant, blocks: seq<JsBlock>, skirt: Option<string>)
    ensures DrawBlocks(v, blocks, skirt).Success? <==>
              forall k :: 0 <= k < |blocks| ==> SpriteColumn(v, blocks[k].piece).Success?
    ensures var r := DrawBlocks(v, blocks, skirt);
            var borders := if v == App && skirt.Some? then |blocks| else 0;
            r.Success? ==>
              && |r.value| == borders + |blocks|
              && (forall k :: 0 <= k < borders ==> r.value[k].FillRect?)
              && (forall k :: 0 <= k < |blocks| ==>
                    r.value[borders + k] == DrawSprite(SpriteColumn(v, blocks[k].piece).value,
                                                       blocks[k].x * CellSize, blocks[k].y * CellSize))
  {
  }

  /** Blocks that come from the engine always draw: their names are piece names. */
  lemma EngineBlocksAlwaysDraw(v: Variant, blocks: seq<JsBlock>, pieces: seq<Piece>, skirt: Option<string>)
    requires |pieces| == |blocks|
    requires forall k :: 0 <= k < |blocks| ==> blocks[k].piece == Name(pieces[k])
    ensures DrawBlocks(v, blocks, skirt).Success?
  {
    forall k | 0 <= k < |blocks|
      ensures SpriteColumn(v, blocks[k].piece).Success?
    {
      SpriteColumnRoundTrip(v, pieces[k]);
    }
    DrawBlocksLayers(v, blocks, skirt);
  }
}
