/**
 * `Tetris`: the engine state behind the exported `tick`, `key`, `setSpeed` and `getDropPiece`
 * functions (src/main.rs). The random source is the oracle `rng` of the piece sack.
 */
module Engine {
  import opened Wrappers
  import opened Pieces
  import opened ActivePieces
  import opened Grid
  import opened LineClear
  import opened Board
  import opened PieceSack

  /** `Input`: the six player commands. */
  datatype Input = Left | Right | Down | Drop | Clockwise | CounterClockwise

  /** The key-name table of the exported `key` function; any other name is ignored. */
  function KeyInput(name: string): (r: Option<Input>)
  {
    match name
    case "ArrowUp" => Some(Clockwise)
    case "ArrowLeft" => Some(Left)
    case "ArrowRight" => Some(Right)
    case "ArrowDown" => Some(Down)
    case "Shift" => Some(CounterClockwise)
    case "Enter" => Some(Drop)
    case _ => None
  }

  /** The key that produces each input. */
  function KeyName(i: Input): string {
    match i
    case Clockwise => "ArrowUp"
    case Left => "ArrowLeft"
    case Right => "ArrowRight"
    case Down => "ArrowDown"
    case CounterClockwise => "Shift"
    case Drop => "Enter"
  }

  /** Exactly one key name produces each input: the table is a bijection onto the inputs. */
  lemma KeyTableIsBijection(name: string, i: Input)
    ensures KeyInput(name) == Some(i) <==> name == KeyName(i)
  {
  }

  /** `TickState`: how many lines the tick cleared and whether some piece was frozen. */
  datatype TickState = TickState(lines: nat, frozen: bool)

  /**
   * `Tetris`. `speed` and `drop_timer` are `i32` in the source; they are unbounded here
   * (see the README for the overflow left out).
   */
  datatype Tetris = Tetris(
    sack: Sack,
    next: Piece,
    active: ActivePiece,
    events: seq<Input>,
    board: Cells,
    speed: int,
    dropTimer: int)

  /** `Tetris::new`: the first piece of the sack is active, the second is shown as next. */
  function New(rng: Rng): (r: Tetris)
    ensures r.events == [] && r.speed == 5 && r.dropTimer == 5
    ensures r.board.Valid() && r.board.width == BoardWidth && r.board.height == BoardHeight
    ensures forall p :: Get(r.board, p) == None
    ensures r.active == Spawn(r.active.piece)
  {
    var first := PieceSack.Next(EmptySack, rng);
    var second := PieceSack.Next(first.1, rng);
    Tetris(second.1, second.0, Spawn(first.0), [], Grid.New(BoardWidth, BoardHeight), 5, 5)
  }

  /**
   * A new engine satisfies the invariant; the active piece, the next piece and the five left in
   * the sack are the seven pieces of the first bag, so the first two pieces differ.
   */
  lemma NewSatisfiesInv(rng: Rng)
    ensures Inv(New(rng))
    ensures var t := New(rng);
            multiset{t.active.piece, t.next} + multiset(t.sack.pieces) == multiset(AllPieces)
    ensures New(rng).active.piece != New(rng).next
  {
    TwoDrawsFromEmptyBag(EmptySack, rng);
    var t := New(rng);
    EmptyBoardHasNoFullRow(t.board);
  }

  /** The exported `set_speed` after the float conversion: only `speed` changes, not the timer. */
  function SetSpeed(t: Tetris, speed: int): (r: Tetris)
    ensures r.speed == speed
    ensures r.(speed := t.speed) == t
  {
    t.(speed := speed)
  }

  /** Rust's float-to-integer `as` cast: truncation toward zero. */
  function Truncate(x: real): (n: int)
    ensures 0.0 <= x ==> n as real <= x < n as real + 1.0
    ensures x < 0.0 ==> n as real - 1.0 < x <= n as real
  {
    if x >= 0.0 then x.Floor else -((-x).Floor)
  }

  /** The conversion in the exported `set_speed`: `21 - (factor * 20.0) as i32`. */
  function SpeedFromFactor(factor: real): (speed: int)
    ensures 0.0 <= factor <= 1.0 ==> 1 <= speed <= 21
    ensures 0.0 <= factor ==> (21 - speed) as real <= factor * 20.0 < (22 - speed) as real
    ensures factor < 0.0 ==> (20 - speed) as real < factor * 20.0 <= (21 - speed) as real
  {
    21 - Truncate(factor * 20.0)
  }

  /** `Tetris::handle_input`: queue the input for the next tick. */
  function HandleInput(t: Tetris, i: Input): (r: Tetris)
    ensures r.events == t.events + [i]
    ensures r.(events := t.events) == t
  {
    t.(events := t.events + [i])
  }

  /** The exported `key`: queue the input the key name maps to, or nothing. */
  function Key(t: Tetris, name: string): (r: Tetris)
    ensures r.(events := t.events) == t
    ensures KeyInput(name).None? ==> r == t
    ensures KeyInput(name).Some? ==> r.events == t.events + [KeyInput(name).value]
  {
    match KeyInput(name)
    case Some(i) => HandleInput(t, i)
    case None => t
  }

  /** A key press queues exactly one input when the name is in the table, and nothing otherwise. */
  lemma KeyQueues(t: Tetris, name: string)
    ensures Key(t, name).(events := t.events) == t
    ensures |Key(t, name).events| == |t.events| + 1 <==> KeyInput(name).Some?
    ensures forall i :: Key(t, name).events == t.events + [i] <==> name == KeyName(i)
  {
    forall i
      ensures Key(t, name).events == t.events + [i] <==> name == KeyName(i)
    {
      KeyTableIsBijection(name, i);
      if Key(t, name).events == t.events + [i] {
        assert KeyInput(name).Some?;
        var j := KeyInput(name).value;
        assert (t.events + [j])[|t.events|] == j;
      }
    }
  }

  /**
   * `Tetris::swap_piece`: spawn the next piece, draw a new next piece, reset the drop timer, and
   * empty the board if the new piece does not fit.
   */
  function SwapPiece(t: Tetris, rng: Rng): (r: Tetris)
    ensures r.active == Spawn(t.next) && r.dropTimer == t.speed
    ensures (r.next, r.sack) == PieceSack.Next(t.sack, rng)
    ensures r.speed == t.speed && r.events == t.events
    ensures SameShape(t.board, r.board)
    ensures !Collides(t.board, Spawn(t.next)) ==> r.board == t.board
    ensures Collides(t.board, Spawn(t.next)) ==> forall p :: Get(r.board, p) == None
  {
    var active := Spawn(t.next);
    var drawn := PieceSack.Next(t.sack, rng);
    var board := if Collides(t.board, active) then Clear(t.board) else t.board;
    t.(active := active, next := drawn.0, sack := drawn.1, dropTimer := t.speed, board := board)
  }

  /** The kinds of the pieces that become active over `n` successive swaps. */
  function Spawned(t: Tetris, rng: Rng, n: nat): (r: seq<Piece>)
    ensures |r| == n
    decreases n
  {
    if n == 0 then []
    else
      var next := SwapPiece(t, rng);
      [next.active.piece] + Spawned(next, rng, n - 1)
  }

  /**
   * Successive swaps play the pieces the sack deals: first the waiting next piece, then the
   * pieces of `n` successive calls of `next`, in order.
   */
  lemma {:induction false} SwapsFollowDeal(t: Tetris, rng: Rng, n: nat)
    ensures Spawned(t, rng, n + 1) == [t.next] + Deal(t.sack, rng, n).0
    decreases n
  {
    var next := SwapPiece(t, rng);
    if n > 0 {
      SwapsFollowDeal(next, rng, n - 1);
      var drawn := PieceSack.Next(t.sack, rng);
      assert Deal(t.sack, rng, n).0 == [drawn.0] + Deal(drawn.1, rng, n - 1).0;
    }
  }

  /**
   * The seven-bag guarantee as the engine plays it: once the sack is empty, every aligned block
   * of seven pieces spawned after the waiting next piece holds each piece exactly once.
   */
  lemma SpawnedBlocksAreBags(t: Tetris, rng: Rng, blocks: nat)
    requires |t.sack.pieces| == 0
    ensures |Spawned(t, rng, 7 * blocks + 1)| == 7 * blocks + 1
    ensures BlocksOfSeven(Spawned(t, rng, 7 * blocks + 1)[1..], blocks)
  {
    SwapsFollowDeal(t, rng, 7 * blocks);
    EveryBlockOfSevenIsABag(t.sack, rng, blocks);
    assert Spawned(t, rng, 7 * blocks + 1)[1..] == Deal(t.sack, rng, 7 * blocks).0;
  }

  /** The invariant every engine state keeps inside a tick. */
  ghost predicate Shaped(t: Tetris) {
    && t.board.Valid() && t.board.width == BoardWidth && t.board.height == BoardHeight
    && !t.active.dropping
    && ValidSack(t.sack) && t.next !in t.sack.pieces
  }

  /** Between ticks, additionally, no row is full. */
  ghost predicate Inv(t: Tetris) {
    Shaped(t) && CountFull(Rows(t.board)) == 0
  }

  /** The invariant does not involve the speed, so `set_speed` keeps it. */
  lemma InvIgnoresSpeed(t: Tetris, speed: int)
    requires Inv(t)
    ensures Inv(t.(speed := speed)) && Inv(SetSpeed(t, speed))
  {
  }

  /**
   * After a swap the new active piece is the old next piece and it fits: the board is kept when
   * the piece fits and emptied when it does not; the invariant holds again.
   */
  lemma SwapPieceFits(t: Tetris, rng: Rng)
    requires Shaped(t)
    ensures var r := SwapPiece(t, rng);
            && Shaped(r) && r.active == Spawn(t.next) && r.dropTimer == t.speed
            && !Collides(r.board, r.active)
            && r.board == if Collides(t.board, Spawn(t.next)) then Clear(t.board) else t.board
  {
    NextKeepsBag(t.sack, rng);
    var active := Spawn(t.next);
    if Collides(t.board, active) {
      SpawnFitsEmptyBoard(Clear(t.board), t.next);
    }
  }

  /** The piece an input asks for, before the collision test. */
  function Transform(a: ActivePiece, i: Input): (r: ActivePiece)
    ensures r.piece == a.piece
    ensures r.dropping <==> a.dropping || i == Drop
  {
    match i
    case Left => DoMove(a, MoveLeft)
    case Right => DoMove(a, MoveRight)
    case Down => Lower(a)
    case Drop => ActivePieces.Drop(a)
    case Clockwise => RotateClockwise(a)
    case CounterClockwise => RotateCounterClockwise(a)
  }

  /**
   * One iteration of the event loop of `Tetris::tick`: a dropping piece is moved down until the
   * next row collides, frozen, and replaced; any other piece is taken only if it does not collide.
   * The flag tells whether a piece was frozen.
   */
  function ApplyEvent(t: Tetris, rng: Rng, i: Input): (r: (Tetris, bool))
    ensures r.0.events == t.events && r.0.speed == t.speed
    ensures !r.1 ==> r.0.board == t.board
    ensures !t.active.dropping && i != Drop ==> !r.1
  {
    var piece := Transform(t.active, i);
    if piece.dropping then
      var landed := Land(t.board, piece, piece);
      (SwapPiece(t.(board := Freeze(t.board, landed)), rng), true)
    else if !Collides(t.board, piece) then
      (t.(active := piece), false)
    else
      (t, false)
  }

  /** The whole event loop, in queue order; `frozen` accumulates. */
  function ApplyEvents(t: Tetris, rng: Rng, events: seq<Input>, frozen: bool): (r: (Tetris, bool))
    ensures r.0.events == t.events && r.0.speed == t.speed
    ensures frozen ==> r.1
    ensures !r.1 ==> r.0.board == t.board
    decreases |events|
  {
    if |events| == 0 then (t, frozen)
    else
      var step := ApplyEvent(t, rng, events[0]);
      ApplyEvents(step.0, rng, events[1..], frozen || step.1)
  }

  /**
   * The gravity step of `Tetris::tick`: count the timer down; once it is below zero, lower the
   * piece, or freeze it and swap when the row below is blocked, and restart the timer.
   */
  function Gravity(t: Tetris, rng: Rng, frozen: bool): (r: (Tetris, bool))
    ensures r.0.events == t.events && r.0.speed == t.speed
    ensures frozen ==> r.1
    ensures !r.1 ==> r.0.board == t.board
    ensures t.dropTimer > 0 ==> r == (t.(dropTimer := t.dropTimer - 1), frozen)
  {
    var timer := t.dropTimer - 1;
    var piece := Lower(t.active);
    var blocked := Collides(t.board, piece);
    if timer < 0 then
      if blocked then
        var swapped := SwapPiece(t.(board := Freeze(t.board, t.active)), rng);
        (swapped.(dropTimer := t.speed), true)
      else
        (t.(active := piece, dropTimer := t.speed), frozen)
    else
      (t.(dropTimer := timer), frozen)
  }

  /**
   * `Tetris::tick`: drain and apply the queued inputs, apply gravity, then clear the full rows;
   * the result reports the number of cleared rows and whether a piece was frozen.
   */
  function Tick(t: Tetris, rng: Rng): (r: (Tetris, TickState))
    requires t.board.Valid() && t.board.width > 0
    ensures r.0.events == [] && r.0.speed == t.speed
    ensures r.0.board.Valid() && r.0.board.width == t.board.width && r.0.board.height == t.board.height
  {
    var events := ApplyEvents(t.(events := []), rng, t.events, false);
    ApplyEventsKeepsValid(t.(events := []), rng, t.events, false);
    var fallen := Gravity(events.0, rng, events.1);
    var board := fallen.0.board;
    (fallen.0.(board := ClearedCells(board)), TickState(CountFull(Rows(board)), fallen.1))
  }

  /** The board stays a valid board of the same size through the event loop. */
  lemma {:induction false} ApplyEventsKeepsValid(t: Tetris, rng: Rng, events: seq<Input>, frozen: bool)
    requires t.board.Valid()
    ensures SameShape(t.board, ApplyEvents(t, rng, events, frozen).0.board)
    ensures ApplyEvents(t, rng, events, frozen).0.events == t.events
    decreases |events|
  {
    if |events| > 0 {
      var step := ApplyEvent(t, rng, events[0]);
      ApplyEventsKeepsValid(step.0, rng, events[1..], frozen || step.1);
    }
  }

  /** An input other than a drop never freezes and, when its piece collides, changes nothing. */
  lemma MoveIsTakenIffFree(t: Tetris, rng: Rng, i: Input)
    requires !t.active.dropping && i != Drop
    ensures var r := ApplyEvent(t, rng, i);
            && !r.1 && r.0.board == t.board
            && (!Collides(t.board, Transform(t.active, i)) ==> r.0 == t.(active := Transform(t.active, i)))
            && (Collides(t.board, Transform(t.active, i)) ==> r.0 == t)
            && !r.0.active.dropping
  {
  }

  /**
   * A hard drop of a free piece freezes it at the lowest row it can reach by moving down one row
   * at a time, then spawns the next piece.
   */
  lemma DropFreezesAtLowestFreeRow(t: Tetris, rng: Rng)
    requires Shaped(t) && !Collides(t.board, t.active)
    ensures var r := ApplyEvent(t, rng, Drop);
            r.1 && r.0.active == Spawn(t.next) &&
            exists y :: LowestFree(t.board, t.active, y) &&
              var f := Freeze(t.board, AtRow(t.active, y));
              r.0.board == if Collides(f, Spawn(t.next)) then Clear(f) else f
  {
    var d := ActivePieces.Drop(t.active);
    var landed := Land(t.board, d, d);
    var y := landed.position.y;
    DropLanding(t.board, t.active);
    var frozen := t.(board := Freeze(t.board, landed));
    SwapPieceFits(frozen, rng);
    DropEvent(t, rng);
    assert frozen.board == Freeze(t.board, AtRow(t.active, y));
    assert LowestFree(t.board, t.active, y);
  }

  /** A `Drop` input lands the piece, freezes it and swaps in the next one. */
  lemma DropEvent(t: Tetris, rng: Rng)
    ensures var d := ActivePieces.Drop(t.active);
            ApplyEvent(t, rng, Drop) == (SwapPiece(t.(board := Freeze(t.board, Land(t.board, d, d))), rng), true)
  {
  }

  /** The hard-drop descent of a free piece ends at its lowest free row; the drop flag plays no part. */
  lemma DropLanding(c: Cells, a: ActivePiece)
    requires !Collides(c, a)
    ensures var d := ActivePieces.Drop(a);
            var landed := Land(c, d, d);
            LowestFree(c, a, landed.position.y) && Freeze(c, landed) == Freeze(c, AtRow(a, landed.position.y))
  {
    var d := ActivePieces.Drop(a);
    SameCollision(c, a, d);
    LandIsLowestFree(c, d);
    var landed := Land(c, d, d);
    var y := landed.position.y;
    assert Lower(landed) == AtRow(d, y + 1);
    assert LowestFree(c, d, y);
    LowestFreeIgnoresDrop(c, a, d, y);
    SameCollision(c, landed, AtRow(a, y));
  }

  /** Whether a row is where a descent stops does not depend on the drop flag. */
  lemma LowestFreeIgnoresDrop(c: Cells, a: ActivePiece, b: ActivePiece, y: int)
    requires a.piece == b.piece && a.position == b.position && a.rotation == b.rotation
    ensures LowestFree(c, a, y) <==> LowestFree(c, b, y)
  {
    forall z
      ensures Collides(c, AtRow(a, z)) == Collides(c, AtRow(b, z))
    {
      SameCollision(c, AtRow(a, z), AtRow(b, z));
    }
  }

  /**
   * `y` is where a hard drop (and the drop shadow) of `a` ends: every row from the piece's own
   * down to `y` is free and the row below `y` is not.
   */
  ghost predicate LowestFree(c: Cells, a: ActivePiece, y: int) {
    && a.position.y <= y
    && (forall z :: a.position.y <= z <= y ==> !Collides(c, AtRow(a, z)))
    && Collides(c, AtRow(a, y + 1))
  }

  /** There is at most one such row. */
  lemma LowestFreeIsUnique(c: Cells, a: ActivePiece, y1: int, y2: int)
    requires LowestFree(c, a, y1) && LowestFree(c, a, y2)
    ensures y1 == y2
  {
    assert y1 < y2 ==> !Collides(c, AtRow(a, y1 + 1));
    assert y2 < y1 ==> !Collides(c, AtRow(a, y2 + 1));
  }

  /** Collision depends on the piece, rotation and position only, not on the drop flag. */
  lemma SameCollision(c: Cells, a: ActivePiece, b: ActivePiece)
    requires a.piece == b.piece && a.position == b.position && a.rotation == b.rotation
    ensures Shape(a) == Shape(b)
    ensures Collides(c, a) == Collides(c, b)
  {
  }

  /** The blocks of a piece's shape, as the engine reports them. */
  function ShapeBlocks(a: ActivePiece): (r: seq<Block>)
    ensures |r| == 4
    ensures forall k :: 0 <= k < 4 ==> r[k].piece == a.piece && r[k].point == Shape(a)[k]
  {
    seq(4, k requires 0 <= k < 4 => Block(Shape(a)[k], a.piece))
  }

  /**
   * `Tetris::get_drop_piece`: the drop shadow. Nothing when the active piece already collides;
   * otherwise the piece moved down until the next row collides. `y` is the shadow's row.
   */
  method GetDropPiece(t: Tetris) returns (r: seq<Block>, y: int)
    ensures Collides(t.board, t.active) ==> r == []
    ensures !Collides(t.board, t.active) ==>
              LowestFree(t.board, t.active, y) && r == ShapeBlocks(AtRow(t.active, y))
  {
    var shadow := t.active;
    y := shadow.position.y;
    if !Collides(t.board, shadow) {
      FreeIsAboveFloor(t.board, shadow);
      while true
        invariant shadow == AtRow(t.active, y) && t.active.position.y <= y < t.board.height
        invariant forall z :: t.active.position.y <= z <= y ==> !Collides(t.board, AtRow(t.active, z))
        decreases t.board.height - y
      {
        var next := DoMove(shadow, MoveDown);
        assert next == AtRow(t.active, y + 1);
        if Collides(t.board, next) {
          break;
        }
        FreeIsAboveFloor(t.board, next);
        shadow := next;
        y := y + 1;
      }
      r := ShapeBlocks(shadow);
    } else {
      r := [];
    }
  }

  /** The drop shadow shows exactly the cells a hard drop would freeze. */
  lemma ShadowIsWhereDropLands(t: Tetris, rng: Rng, y: int)
    requires Shaped(t) && !Collides(t.board, t.active)
    requires LowestFree(t.board, t.active, y)
    ensures var r := ApplyEvent(t, rng, Drop);
            var f := Freeze(t.board, AtRow(t.active, y));
            r.0.board == if Collides(f, Spawn(t.next)) then Clear(f) else f
  {
    DropFreezesAtLowestFreeRow(t, rng);
    var r := ApplyEvent(t, rng, Drop);
    var y' :| LowestFree(t.board, t.active, y') &&
              var f := Freeze(t.board, AtRow(t.active, y'));
              r.0.board == if Collides(f, Spawn(t.next)) then Clear(f) else f;
    LowestFreeIsUnique(t.board, t.active, y, y');
  }

  /** One input keeps the engine invariant; a board change happens only when a piece was frozen. */
  lemma ApplyEventKeepsShaped(t: Tetris, rng: Rng, i: Input)
    requires Shaped(t)
    ensures Shaped(ApplyEvent(t, rng, i).0)
    ensures ApplyEvent(t, rng, i).0.events == t.events
    ensures !ApplyEvent(t, rng, i).1 ==> ApplyEvent(t, rng, i).0.board == t.board
  {
    var piece := Transform(t.active, i);
    if piece.dropping {
      var landed := Land(t.board, piece, piece);
      SwapPieceFits(t.(board := Freeze(t.board, landed)), rng);
    }
  }

  /** The event loop keeps the invariant; without a freeze the board is untouched. */
  lemma {:induction false} ApplyEventsKeepsShaped(t: Tetris, rng: Rng, events: seq<Input>, frozen: bool)
    requires Shaped(t)
    ensures Shaped(ApplyEvents(t, rng, events, frozen).0)
    ensures ApplyEvents(t, rng, events, frozen).0.events == t.events
    ensures frozen ==> ApplyEvents(t, rng, events, frozen).1
    ensures !ApplyEvents(t, rng, events, frozen).1 ==> ApplyEvents(t, rng, events, frozen).0.board == t.board
    decreases |events|
  {
    if |events| > 0 {
      var step := ApplyEvent(t, rng, events[0]);
      ApplyEventKeepsShaped(t, rng, events[0]);
      ApplyEventsKeepsShaped(step.0, rng, events[1..], frozen || step.1);
    }
  }

  /** Applying a queue is applying its first part and then the rest, from where the first part left off. */
  lemma {:induction false} ApplyEventsAppend(t: Tetris, rng: Rng, a: seq<Input>, b: seq<Input>, frozen: bool)
    ensures var first := ApplyEvents(t, rng, a, frozen);
            ApplyEvents(t, rng, a + b, frozen) == ApplyEvents(first.0, rng, b, first.1)
    decreases |a|
  {
    if |a| > 0 {
      var step := ApplyEvent(t, rng, a[0]);
      assert (a + b)[0] == a[0] && (a + b)[1..] == a[1..] + b;
      ApplyEventsAppend(step.0, rng, a[1..], b, frozen || step.1);
    } else {
      assert a + b == b;
    }
  }

  /**
   * Gravity keeps the invariant. While the timer has not run out it only counts down. Once it
   * runs out the timer restarts at `speed`, and the piece moves one row down when that row is
   * free; otherwise the piece is frozen where it is and the next piece spawns, on the frozen
   * board or, when the new piece does not fit there, on an emptied one.
   */
  lemma GravityKeepsShaped(t: Tetris, rng: Rng, frozen: bool)
    requires Shaped(t)
    ensures var r := Gravity(t, rng, frozen);
            && Shaped(r.0) && r.0.events == t.events
            && (frozen ==> r.1)
            && (!r.1 ==> r.0.board == t.board)
            && (t.dropTimer > 0 ==> r.0 == t.(dropTimer := t.dropTimer - 1) && r.1 == frozen)
            && (t.dropTimer <= 0 ==> r.0.dropTimer == t.speed)
            && (t.dropTimer <= 0 && !Collides(t.board, Lower(t.active)) ==>
                  r.0 == t.(active := Lower(t.active), dropTimer := t.speed) && r.1 == frozen)
            && (t.dropTimer <= 0 && Collides(t.board, Lower(t.active)) ==>
                  && r.1 && r.0.active == Spawn(t.next)
                  && var f := Freeze(t.board, t.active);
                     r.0.board == if Collides(f, Spawn(t.next)) then Clear(f) else f)
  {
    if t.dropTimer - 1 < 0 && Collides(t.board, Lower(t.active)) {
      SwapPieceFits(t.(board := Freeze(t.board, t.active)), rng);
    }
  }

  /**
   * A tick keeps the engine invariant between ticks: the queue is drained, no full row is left,
   * the number of cleared rows is at most the board height, and a tick that froze nothing cleared
   * nothing and left the board as it was.
   */
  lemma TickPreservesInv(t: Tetris, rng: Rng)
    requires Inv(t)
    ensures var r := Tick(t, rng);
            && Inv(r.0) && r.0.events == []
            && r.1.lines <= BoardHeight
            && (!r.1.frozen ==> r.1.lines == 0 && r.0.board == t.board)
  {
    var t0 := t.(events := []);
    ApplyEventsKeepsShaped(t0, rng, t.events, false);
    var events := ApplyEvents(t0, rng, t.events, false);
    GravityKeepsShaped(events.0, rng, events.1);
    var fallen := Gravity(events.0, rng, events.1);
    var board := fallen.0.board;
    ClearedHasNoFullRow(board);
    KeptCount(Rows(board));
    if !fallen.1 {
      CountZeroHasNoFullRow(Rows(t.board));
      ClearWithoutFullRowIsIdentity(board);
    }
  }

  /** Rows cleared by a tick account for the cells that vanished: `width` cells per row. */
  lemma TickRemovesFullRows(t: Tetris, rng: Rng)
    requires Inv(t)
    ensures var r := Tick(t, rng);
            var before := ApplyEvents(t.(events := []), rng, t.events, false);
            var fallen := Gravity(before.0, rng, before.1).0.board;
            Occupancy(r.0.board.cells) + BoardWidth * r.1.lines == Occupancy(fallen.cells)
  {
    var t0 := t.(events := []);
    ApplyEventsKeepsShaped(t0, rng, t.events, false);
    var events := ApplyEvents(t0, rng, t.events, false);
    GravityKeepsShaped(events.0, rng, events.1);
    ClearedOccupancy(Gravity(events.0, rng, events.1).0.board);
  }

  /**
   * A tick is its three steps in order: the drained queue is applied to the engine with an empty
   * queue, gravity follows with the freeze report of the inputs, and the full rows of the board
   * gravity leaves are cleared and counted. The pieces, the sack and the timer are those of the
   * gravity step.
   */
  lemma TickSteps(t: Tetris, rng: Rng)
    requires t.board.Valid() && t.board.width > 0
    ensures var ev := ApplyEvents(t.(events := []), rng, t.events, false);
            var fallen := Gravity(ev.0, rng, ev.1);
            fallen.0.board.Valid() && Tick(t, rng).1 == TickState(CountFull(Rows(fallen.0.board)), fallen.1)
    ensures var ev := ApplyEvents(t.(events := []), rng, t.events, false);
            var fallen := Gravity(ev.0, rng, ev.1);
            Tick(t, rng).0 == fallen.0.(board := ClearedCells(fallen.0.board))
  {
    ApplyEventsKeepsValid(t.(events := []), rng, t.events, false);
  }

  /** A tick with no queued input and a running drop timer only counts the timer down. */
  lemma IdleTick(t: Tetris, rng: Rng)
    requires Inv(t) && t.events == [] && t.dropTimer > 0
    ensures Tick(t, rng) == (t.(dropTimer := t.dropTimer - 1), TickState(0, false))
  {
    assert ApplyEvents(t.(events := []), rng, t.events, false) == (t, false);
    CountZeroHasNoFullRow(Rows(t.board));
    ClearWithoutFullRowIsIdentity(t.board);
  }

  /**
   * A hard drop at the head of the queue is reported by the tick: the piece freezes and the tick
   * says so, whatever the later inputs and gravity do.
   */
  lemma TickReportsDrop(t: Tetris, rng: Rng)
    requires Inv(t) && |t.events| > 0 && t.events[0] == Drop && !Collides(t.board, t.active)
    ensures Tick(t, rng).1.frozen
  {
    var t0 := t.(events := []);
    DropFreezesAtLowestFreeRow(t0, rng);
    var step := ApplyEvent(t0, rng, Drop);
    assert ApplyEvents(t0, rng, t.events, false) == ApplyEvents(step.0, rng, t.events[1..], step.1);
  }
}
