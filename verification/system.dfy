/**
 * The coordinator wired to the engine: an animation frame runs `TetrisGame.tick` with the
 * engine's `tick`, and a key press runs `TetrisGame.input` with the engine's `key`.
 */
module System {
  import opened Grid
  import opened PieceSack
  import Engine
  import Game

  datatype World = World(game: Game.Game, engine: Engine.Tetris)

  /**
   * The engine's side of the coordinator's effects: each pushed speed goes through the exported
   * `set_speed`, in order; every other effect leaves the engine state alone here.
   */
  function ApplySpeeds(t: Engine.Tetris, effects: seq<Game.Effect>): (r: Engine.Tetris)
    ensures r.(speed := t.speed) == t
    decreases |effects|
  {
    if |effects| == 0 then t
    else
      var next := if effects[0].SetSpeed? then Engine.SetSpeed(t, Engine.SpeedFromFactor(effects[0].factor)) else t;
      ApplySpeeds(next, effects[1..])
  }

  /** When every pushed speed is the same factor, the engine ends at that factor's speed, or as it was. */
  lemma {:induction false} ApplySameSpeed(t: Engine.Tetris, effects: seq<Game.Effect>, f: real)
    requires forall e :: e in effects && e.SetSpeed? ==> e == Game.SetSpeed(f)
    ensures ApplySpeeds(t, effects) ==
              if Game.SetSpeed(f) in effects then Engine.SetSpeed(t, Engine.SpeedFromFactor(f)) else t
    decreases |effects|
  {
    if |effects| > 0 {
      var next := if effects[0].SetSpeed? then Engine.SetSpeed(t, Engine.SpeedFromFactor(effects[0].factor)) else t;
      assert forall e :: e in effects[1..] ==> e in effects;
      ApplySameSpeed(next, effects[1..], f);
      assert Game.SetSpeed(f) in effects <==> effects[0] == Game.SetSpeed(f) || Game.SetSpeed(f) in effects[1..];
    }
  }

  /**
   * One animation frame: the engine ticks only when the coordinator is not paused; the speed the
   * coordinator pushes while scoring reaches the engine after its tick.
   */
  function Frame(w: World, rng: Rng): (r: (World, seq<Game.Effect>))
    requires w.engine.board.Valid() && w.engine.board.width > 0
    ensures r.0.game == Game.Frame(w.game, if w.game.pause then Engine.TickState(0, false) else Engine.Tick(w.engine, rng).1).0
    ensures w.game.pause ==> r.0.engine.(speed := w.engine.speed) == w.engine
    ensures !w.game.pause ==> r.0.engine.(speed := w.engine.speed) == Engine.Tick(w.engine, rng).0
  {
    var ticked := if w.game.pause then (w.engine, Engine.TickState(0, false)) else Engine.Tick(w.engine, rng);
    var f := Game.Frame(w.game, ticked.1);
    (World(f.0, ApplySpeeds(ticked.0, f.1)), f.1)
  }

  /** `start`, wired: the factor it pushes becomes the engine's speed, `21 - level` for any level. */
  function Start(w: World): (r: (World, seq<Game.Effect>))
    ensures r.0.game == Game.Start(w.game).0 && r.1 == Game.Start(w.game).1
    ensures r.0.engine.(speed := w.engine.speed) == w.engine
    ensures r.0.engine.speed == 21 - w.game.level
  {
    var s := Game.Start(w.game);
    assert (w.game.level as real / 20.0) * 20.0 == w.game.level as real;
    ApplySameSpeed(w.engine, s.1, w.game.level as real / 20.0);
    (World(s.0, ApplySpeeds(w.engine, s.1)), s.1)
  }

  /** One `keydown`: the coordinator's reaction, then the engine's `key` when the key is forwarded. */
  function KeyDown(w: World, key: string): (r: (World, seq<Game.Effect>))
    ensures r.0.game == Game.Input(w.game, key).0 && r.1 == Game.Input(w.game, key).1
    ensures r.0.engine.(events := w.engine.events) == w.engine
    ensures r.0.game.pause ==> r.0.engine == w.engine
    ensures !r.0.game.pause ==> r.0.engine == Engine.Key(w.engine, key)
    ensures !r.0.game.pause ==>
              r.0.engine.events == w.engine.events
                                   + (if Engine.KeyInput(key).Some? then [Engine.KeyInput(key).value] else [])
  {
    var input := Game.Input(w.game, key);
    var engine := if !input.0.pause then Engine.Key(w.engine, key) else w.engine;
    (World(input.0, engine), input.1)
  }

  /** The engine's drop interval is the one `updateScore` sets for the coordinator's level. */
  ghost predicate SpeedMatchesLevel(w: World) {
    w.engine.speed == 21 - (if w.game.level <= 20 then w.game.level else 20)
  }

  /** Both halves keep their invariants. */
  ghost predicate Inv(w: World) {
    Game.Inv(w.game) && Engine.Inv(w.engine)
  }

  /**
   * A frame leaves the engine's drop interval where `updateScore` puts it: when the level
   * changed, `21 - level` with the level capped at 20; otherwise the interval is untouched, so an
   * interval that matched the level still does.
   */
  lemma FrameSetsLevelSpeed(w: World, rng: Rng)
    requires w.engine.board.Valid() && w.engine.board.width > 0
    ensures var r := Frame(w, rng).0;
            && (r.game.level != w.game.level ==> SpeedMatchesLevel(r))
            && (r.game.level == w.game.level ==> r.engine.speed == w.engine.speed)
            && (SpeedMatchesLevel(w) ==> SpeedMatchesLevel(r))
  {
    var ticked := if w.game.pause then (w.engine, Engine.TickState(0, false)) else Engine.Tick(w.engine, rng);
    var f := Game.Frame(w.game, ticked.1);
    Game.FramePushesLevelSpeed(w.game, ticked.1);
    ApplySameSpeed(ticked.0, f.1, Game.SpeedFactor(f.0.level));
    var level := f.0.level;
    assert Game.SpeedFactor(level) * 20.0 == (if level <= 20 then level else 20) as real;
  }

  /**
   * A frame keeps both invariants (while the line count stays where `| 0` is exact). A paused
   * frame changes nothing; a running one scores the rows the engine cleared at the old level.
   */
  lemma FrameKeepsInv(w: World, rng: Rng)
    requires Inv(w) && w.game.lines + BoardHeight < Game.ExactLinesBound
    ensures Inv(Frame(w, rng).0)
    ensures w.game.pause ==> Frame(w, rng).0 == w
    ensures !w.game.pause ==>
              var cleared := Engine.Tick(w.engine, rng).1.lines;
              Frame(w, rng).0.game.score == w.game.score + Game.LinePoints(cleared) * w.game.level
  {
    FrameSetsLevelSpeed(w, rng);
    var r := Frame(w, rng).0;
    if !w.game.pause {
      Engine.TickPreservesInv(w.engine, rng);
      var ticked := Engine.Tick(w.engine, rng);
      Game.FrameKeepsInv(w.game, ticked.1);
      RunningFrameScores(w, rng);
      assert r.engine == ticked.0.(speed := r.engine.speed);
      Engine.InvIgnoresSpeed(ticked.0, r.engine.speed);
    } else {
      Game.PausedFrameIsIdle(w.game, Engine.TickState(0, false));
    }
  }

  /** A running frame scores the rows the engine's tick cleared, at the level before the frame. */
  lemma RunningFrameScores(w: World, rng: Rng)
    requires w.engine.board.Valid() && w.engine.board.width > 0 && !w.game.pause
    requires 0 <= w.game.lines && w.game.lines + Engine.Tick(w.engine, rng).1.lines < Game.ExactLinesBound
    ensures var cleared := Engine.Tick(w.engine, rng).1.lines;
            Frame(w, rng).0.game.score == w.game.score + Game.LinePoints(cleared) * w.game.level
  {
    var cleared := Engine.Tick(w.engine, rng).1.lines;
    Game.UpdateScoreSpec(w.game, cleared);
    assert Frame(w, rng).0.game == Game.UpdateScore(w.game, cleared).0;
  }

  /**
   * While paused, no key reaches the engine's queue; the pause key itself never does, since it
   * is not in the engine's key table.
   */
  lemma PausedKeysAreDropped(w: World, key: string)
    ensures w.game.pause && key != " " ==> KeyDown(w, key).0.engine == w.engine
    ensures KeyDown(w, " ").0.engine.events == w.engine.events
  {
    Engine.KeyQueues(w.engine, " ");
  }

  /** Keys keep both invariants, and the drop interval keeps matching the level. */
  lemma KeyDownKeepsInv(w: World, key: string)
    requires Inv(w)
    ensures Inv(KeyDown(w, key).0)
    ensures SpeedMatchesLevel(w) ==> SpeedMatchesLevel(KeyDown(w, key).0)
  {
    Game.InputKeepsInv(w.game, key);
    Engine.KeyQueues(w.engine, key);
  }
}
