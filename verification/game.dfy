/**
 * `TetrisGame`, the JavaScript coordinator of both front ends: pause, score, level and line
 * bookkeeping, the per-frame tick gate, keyboard forwarding and listener notifications.
 * Calls into the engine, the canvas and the browser are returned as a list of `Effect`s in the
 * order the code makes them.
 */
module Game {
  import opened Wrappers
  import opened EventBus
  import opened Sprites
  import Engine

  /** What `trigger` hands to listeners. */
  datatype Payload =
    | ScoreData(score: int, lines: int, level: int)
    | PausedFlag(paused: bool)
    | NextPreview
    | HoldPreview

  /** The outside calls a coordinator step makes. */
  datatype Effect =
    | Call(delivery: Delivery<Payload>)
    | SetSpeed(factor: real)
    | EngineTick
    | EngineKey(key: string)
    | RenderBlocks
    | RenderPieces
    | RequestFrame

  /** The fields of `TetrisGame` that the coordinator logic reads and writes. */
  datatype Game = Game(
    variant: Variant,
    pause: bool,
    score: int,
    level: int,
    lines: int,
    wasTetris: bool,
    stopping: bool,
    listeners: Bus)

  /** The constructor; `stopping` is unset there, which reads as false. */
  function NewGame(v: Variant): Game {
    Game(v, false, 0, 1, 0, false, false, [])
  }

  /** `addEventListener`. */
  function AddEventListener(g: Game, name: string, handler: nat): (r: Game)
    ensures r.(listeners := g.listeners) == g
    ensures r.listeners == Subscribe(g.listeners, name, handler)
  {
    g.(listeners := Subscribe(g.listeners, name, handler))
  }

  /** `trigger`: one `Call` per listener registered under the topic, in registration order. */
  function Publish(g: Game, topic: string, payload: Payload): (r: seq<Effect>)
    ensures |r| == |Trigger(g.listeners, topic, payload)|
    ensures forall k :: 0 <= k < |r| ==> r[k] == Call(Trigger(g.listeners, topic, payload)[k])
  {
    var calls := Trigger(g.listeners, topic, payload);
    seq(|calls|, k requires 0 <= k < |calls| => Call(calls[k]))
  }

  /** JavaScript's `x | 0` on a non-negative integer: ToInt32, i.e. wrap modulo 2^32 into the signed range. */
  function ToInt32(x: int): (r: int)
    ensures -0x8000_0000 <= r < 0x8000_0000
    ensures -0x8000_0000 <= x < 0x8000_0000 ==> r == x
  {
    var m := x % 0x1_0000_0000;
    if m >= 0x8000_0000 then m - 0x1_0000_0000 else m
  }

  /** Line counts below this bound keep `(lines / 10) | 0` exact. */
  const ExactLinesBound: int := 10 * 0x8000_0000

  /** The speed factor pushed to the engine for a level: `level / 20`, capped at 1. */
  function SpeedFactor(level: int): (f: real)
    ensures level >= 1 ==> 0.0 < f <= 1.0
  {
    if level <= 20 then level as real / 20.0 else 1.0
  }

  /**
   * `updateScore`, as written: `wasTetris` is reset before the four-line case reads it, so that
   * case always takes the 800 branch.
   */
  function UpdateScore(g: Game, cleared: nat): (r: (Game, seq<Effect>))
    ensures cleared == 0 ==> r == (g, [])
    ensures r.0.lines == g.lines + cleared
    ensures r.0.(score := g.score, lines := g.lines, level := g.level, wasTetris := g.wasTetris) == g
    ensures forall e :: e in r.1 ==>
              e == SetSpeed(SpeedFactor(r.0.level))
              || (e.Call? && e.delivery.data == ScoreData(r.0.score, r.0.lines, r.0.level))
    ensures SetSpeed(SpeedFactor(r.0.level)) in r.1 <==> r.0.level != g.level
  {
    if cleared == 0 then (g, [])
    else
      var wasTetris := false;
      var score :=
        if cleared == 1 then g.score + 100 * g.level
        else if cleared == 2 then g.score + 300 * g.level
        else if cleared == 3 then g.score + 500 * g.level
        else if cleared == 4 then g.score + (if wasTetris then 1200 else 800) * g.level
        else g.score;
      var lines := g.lines + cleared;
      var newLevel := ToInt32(lines / 10) + 1;
      var level := if g.level != newLevel then newLevel else g.level;
      var speed := if g.level != newLevel then [SetSpeed(SpeedFactor(newLevel))] else [];
      var r := g.(score := score, wasTetris := cleared == 4, lines := lines, level := level);
      (r, speed + Publish(r, "score", ScoreData(score, lines, level)))
  }

  /** Points per clear before the level multiplier, as a table: 100, 300, 500, 800, nothing else. */
  function LinePoints(cleared: nat): nat {
    if 1 <= cleared <= 4 then [100, 300, 500, 800][cleared - 1] else 0
  }

  /** The coordinator's invariant: the level is at least 1 and never ahead of the cleared lines. */
  ghost predicate Inv(g: Game) {
    1 <= g.level <= g.lines / 10 + 1 && 0 <= g.lines
  }

  /**
   * What `updateScore` does with a non-zero clear: the score grows by the table points times the
   * level before the update, the lines grow by the clear, the level follows the lines, the engine
   * speed is pushed only when the level changed, and the score is published once per listener.
   * A zero clear changes nothing and calls nobody.
   */
  lemma UpdateScoreSpec(g: Game, cleared: nat)
    requires 0 <= g.lines && g.lines + cleared < ExactLinesBound
    ensures cleared == 0 ==> UpdateScore(g, cleared) == (g, [])
    ensures var (r, effects) := UpdateScore(g, cleared);
            cleared != 0 ==>
              && r.score == g.score + LinePoints(cleared) * g.level
              && r.lines == g.lines + cleared
              && r.level == r.lines / 10 + 1
              && r.wasTetris == (cleared == 4)
              && r.(score := g.score, lines := g.lines, level := g.level, wasTetris := g.wasTetris) == g
              && effects == (if r.level != g.level then [SetSpeed(SpeedFactor(r.level))] else [])
                            + Publish(r, "score", ScoreData(r.score, r.lines, r.level))
  {
  }

  /** The back-to-back bonus never applies: a four-line clear is worth 800 per level, whatever came before. */
  lemma FourLinesAlwaysScore800(g: Game)
    ensures UpdateScore(g, 4).0.score == g.score + 800 * g.level
  {
  }

  /** Scoring keeps the invariant and never lowers the level (while `| 0` is exact). */
  lemma UpdateScoreKeepsInv(g: Game, cleared: nat)
    requires Inv(g) && g.lines + cleared < ExactLinesBound
    ensures Inv(UpdateScore(g, cleared).0)
    ensures UpdateScore(g, cleared).0.level >= g.level
    ensures UpdateScore(g, cleared).0.lines >= g.lines
  {
    UpdateScoreSpec(g, cleared);
    if cleared != 0 {
      assert (g.lines + cleared) / 10 >= g.lines / 10;
    }
  }

  /**
   * Every speed pushed on a level change is a factor in (0, 1], so the engine interval it
   * becomes is between 1 and 20 ticks, and shorter for higher levels up to level 20.
   */
  lemma PushedSpeedInRange(level: int)
    requires level >= 1
    ensures 0.0 < SpeedFactor(level) <= 1.0
    ensures Engine.SpeedFromFactor(SpeedFactor(level)) == 21 - (if level <= 20 then level else 20)
  {
    var f := SpeedFactor(level);
    var n := if level <= 20 then level else 20;
    assert f * 20.0 == n as real;
  }

  /** `togglePause`. */
  function TogglePause(g: Game): (r: Game)
    ensures r.pause != g.pause
    ensures r.(pause := g.pause) == g
  {
    g.(pause := !g.pause)
  }

  /** Pausing twice is not pausing at all. */
  lemma DoubleToggleIsIdentity(g: Game)
    ensures TogglePause(TogglePause(g)) == g
  {
  }

  /** `stop`: no more frames are requested. */
  function Stop(g: Game): (r: Game)
    ensures r.stopping && r.(stopping := g.stopping) == g
  {
    g.(stopping := true)
  }

  /**
   * `start` (after the canvas set-up): clear `stopping`, request the first frame, and push the
   * speed of the current level, `level / 20` without the cap that `updateScore` applies.
   */
  function Start(g: Game): (r: (Game, seq<Effect>))
    ensures !r.0.stopping && r.0.(stopping := g.stopping) == g
    ensures r.1 == [RequestFrame, SetSpeed(g.level as real / 20.0)]
  {
    (g.(stopping := false), [RequestFrame, SetSpeed(g.level as real / 20.0)])
  }

  /**
   * The speed `start` pushes, against the one `updateScore` pushes for the same level: equal up
   * to level 20, an interval of `21 - level` ticks; above level 20 `start` pushes a larger factor
   * and the engine interval drops below 1, where `updateScore` would set 1.
   */
  lemma StartSpeedAgainstScoring(g: Game)
    requires g.level >= 1
    ensures Start(g).1[1].SetSpeed?
    ensures var f := Start(g).1[1].factor;
            && (g.level <= 20 ==> f == SpeedFactor(g.level) && Engine.SpeedFromFactor(f) == 21 - g.level)
            && (g.level > 20 ==>
                  f > SpeedFactor(g.level) && Engine.SpeedFromFactor(f) == 21 - g.level
                  && Engine.SpeedFromFactor(f) < Engine.SpeedFromFactor(SpeedFactor(g.level)))
  {
    var f := g.level as real / 20.0;
    assert f * 20.0 == g.level as real;
    PushedSpeedInRange(g.level);
  }

  /**
   * `input`: space toggles the pause and publishes the new flag; `]` adds ten lines (the level
   * follows only at the next scoring clear); then the key goes to the engine unless the game is
   * now paused.
   */
  function Input(g: Game, key: string): (r: (Game, seq<Effect>))
    ensures r.0.(pause := g.pause, lines := g.lines) == g
    ensures EngineKey(key) in r.1 <==> !r.0.pause
  {
    var step :=
      if key == " " then
        var t := TogglePause(g);
        (t, Publish(t, "paused", PausedFlag(t.pause)))
      else if key == "]" then
        (g.(lines := g.lines + 10), [])
      else
        (g, []);
    assert forall e: Effect :: e in step.1 ==> e.Call?;
    (step.0, step.1 + if !step.0.pause then [EngineKey(key)] else [])
  }

  /**
   * A key reaches the engine exactly when the game is not paused after the key; only space
   * changes the pause flag, only `]` the line count, and nothing else changes.
   */
  lemma InputForwardsIffRunning(g: Game, key: string)
    ensures var (r, effects) := Input(g, key);
            && (EngineKey(key) in effects <==> !r.pause)
            && (r.pause <==> (g.pause != (key == " ")))
            && r.lines == g.lines + (if key == "]" then 10 else 0)
            && r.(pause := g.pause, lines := g.lines) == g
            && (key == " " ==> effects[..|Trigger(g.listeners, "paused", PausedFlag(r.pause))|]
                               == Publish(r, "paused", PausedFlag(r.pause)))
  {
    var (r, effects) := Input(g, key);
    if EngineKey(key) in effects && key == " " {
      var calls := Publish(r, "paused", PausedFlag(r.pause));
      assert forall e :: e in calls ==> e.Call?;
    }
  }

  /** Keys keep the invariant: `]` only adds lines, so the level stays within reach. */
  lemma InputKeepsInv(g: Game, key: string)
    requires Inv(g)
    ensures Inv(Input(g, key).0)
  {
  }

  /**
   * `tick`: unless paused, run the engine tick, score its cleared lines, redraw the board and the
   * previews (the app variant also the hold preview) when a piece froze, and redraw the pieces;
   * then request the next frame unless stopping. `update` is what the engine tick returned.
   */
  function Frame(g: Game, update: Engine.TickState): (r: (Game, seq<Effect>))
    ensures g.pause ==> r.0 == g
    ensures !g.pause ==> r.0 == UpdateScore(g, update.lines).0
    ensures (EngineTick in r.1) != g.pause
  {
    var step :=
      if !g.pause then
        var scored := UpdateScore(g, update.lines);
        (scored.0, [EngineTick] + scored.1 + Previews(scored.0, update.frozen) + [RenderPieces])
      else
        (g, []);
    (step.0, step.1 + if !step.0.stopping then [RequestFrame] else [])
  }

  /** After a freeze: redraw the board, then notify the preview listeners (hold only in the app). */
  function Previews(g: Game, frozen: bool): seq<Effect> {
    if frozen then
      [RenderBlocks] + Publish(g, "nextPiece", NextPreview)
      + (if g.variant == App then Publish(g, "holdPiece", HoldPreview) else [])
    else []
  }

  /**
   * A paused frame neither ticks the engine nor scores, and only requests the next frame
   * (unless stopping).
   */
  lemma PausedFrameIsIdle(g: Game, update: Engine.TickState)
    requires g.pause
    ensures Frame(g, update).0 == g
    ensures Frame(g, update).1 == if g.stopping then [] else [RequestFrame]
  {
  }

  /**
   * A running frame ticks the engine first and draws the pieces after any board redraw; the
   * next frame is requested exactly when the game is not stopping, and always last.
   */
  lemma RunningFrameOrder(g: Game, update: Engine.TickState)
    requires !g.pause
    ensures var (r, effects) := Frame(g, update);
            && r == UpdateScore(g, update.lines).0
            && |effects| >= 2 && effects[0] == EngineTick
            && (RequestFrame in effects <==> !g.stopping)
            && (!g.stopping ==> effects[|effects| - 1] == RequestFrame && effects[|effects| - 2] == RenderPieces)
            && (g.stopping ==> effects[|effects| - 1] == RenderPieces)
            && (RenderBlocks in effects <==> update.frozen)
  {
    var scored := UpdateScore(g, update.lines);
    var previews := Previews(scored.0, update.frozen);
    assert update.frozen ==> previews[0] == RenderBlocks;
    assert forall e :: e in previews ==> e.Call? || e == RenderBlocks;
    var body := [EngineTick] + scored.1 + previews + [RenderPieces];
    assert Frame(g, update) == (scored.0, body + if !scored.0.stopping then [RequestFrame] else []);
    assert scored.0.stopping == g.stopping;
  }

  /**
   * Whom a running frame notifies: every scoring effect, in order, right after the engine tick;
   * and before the pieces are redrawn, a "nextPiece" listener exactly when a piece froze, a
   * "holdPiece" listener exactly when a piece froze in the app variant.
   */
  lemma RunningFrameNotifies(g: Game, update: Engine.TickState)
    requires !g.pause
    ensures var (r, effects) := Frame(g, update);
            var scoring := UpdateScore(g, update.lines).1;
            var pieces := if g.stopping then |effects| - 1 else |effects| - 2;
            && 1 + |scoring| <= pieces < |effects| && effects[pieces] == RenderPieces
            && effects[1..1 + |scoring|] == scoring
            && (forall h :: Call(Delivery(h, NextPreview)) in effects[..pieces] <==>
                  update.frozen && Listener("nextPiece", h) in g.listeners)
            && (forall h :: Call(Delivery(h, HoldPreview)) in effects[..pieces] <==>
                  update.frozen && g.variant == App && Listener("holdPiece", h) in g.listeners)
  {
    var scored := UpdateScore(g, update.lines);
    var previews := Previews(scored.0, update.frozen);
    var tail := [RenderPieces] + (if !g.stopping then [RequestFrame] else []);
    var effects := Frame(g, update).1;
    assert effects == [EngineTick] + scored.1 + previews + tail;
    Layout(EngineTick, scored.1, previews, tail);
    forall h
      ensures Call(Delivery(h, NextPreview)) in effects[..1 + |scored.1| + |previews|] <==>
                update.frozen && Listener("nextPiece", h) in g.listeners
      ensures Call(Delivery(h, HoldPreview)) in effects[..1 + |scored.1| + |previews|] <==>
                update.frozen && g.variant == App && Listener("holdPiece", h) in g.listeners
    {
      assert Call(Delivery(h, NextPreview)) !in scored.1;
      assert Call(Delivery(h, HoldPreview)) !in scored.1;
      PreviewsNotify(scored.0, update.frozen, h);
    }
  }

  /** Where the parts of `[x] + s + p + tail` sit. */
  lemma Layout<T>(x: T, s: seq<T>, p: seq<T>, tail: seq<T>)
    requires |tail| > 0
    ensures var e := [x] + s + p + tail;
            && e[..1 + |s| + |p|] == [x] + s + p
            && e[1..1 + |s|] == s
            && e[1 + |s| + |p|] == tail[0]
  {
    var e := [x] + s + p + tail;
    assert e[1..] == s + (p + tail);
    assert e[1..1 + |s|] == e[1..][..|s|];
  }

  /** The previews notify a "nextPiece" listener exactly after a freeze, a "holdPiece" one only in the app. */
  lemma PreviewsNotify(g: Game, frozen: bool, h: nat)
    ensures Call(Delivery(h, NextPreview)) in Previews(g, frozen) <==> frozen && Listener("nextPiece", h) in g.listeners
    ensures Call(Delivery(h, HoldPreview)) in Previews(g, frozen) <==>
              frozen && g.variant == App && Listener("holdPiece", h) in g.listeners
  {
    PublishedTo(g, "nextPiece", NextPreview, h);
    PublishedTo(g, "holdPiece", HoldPreview, h);
    PublishCarries(g, "nextPiece", NextPreview);
    PublishCarries(g, "holdPiece", HoldPreview);
  }

  /**
   * The only speed a frame pushes is the factor of the level it ends at, and it pushes it exactly
   * when the level changed.
   */
  lemma FramePushesLevelSpeed(g: Game, update: Engine.TickState)
    ensures var (r, effects) := Frame(g, update);
            && (forall e :: e in effects && e.SetSpeed? ==> e == SetSpeed(SpeedFactor(r.level)))
            && (SetSpeed(SpeedFactor(r.level)) in effects <==> r.level != g.level)
  {
    if !g.pause {
      var scored := UpdateScore(g, update.lines);
      var previews := Previews(scored.0, update.frozen);
      PublishCarries(scored.0, "nextPiece", NextPreview);
      PublishCarries(scored.0, "holdPiece", HoldPreview);
      assert forall e :: e in previews ==> !e.SetSpeed?;
      var effects := Frame(g, update).1;
      assert effects == [EngineTick] + scored.1 + previews + [RenderPieces]
                        + (if !g.stopping then [RequestFrame] else []);
    }
  }

  /** Every effect of a publication is a call carrying the published payload. */
  lemma PublishCarries(g: Game, topic: string, payload: Payload)
    ensures forall e :: e in Publish(g, topic, payload) ==> e.Call? && e.delivery.data == payload
  {
  }

  /** A publication calls a handler exactly when it is registered under the topic. */
  lemma PublishedTo(g: Game, topic: string, payload: Payload, h: nat)
    ensures Call(Delivery(h, payload)) in Publish(g, topic, payload) <==> Listener(topic, h) in g.listeners
  {
    CalledIffRegistered(g.listeners, topic, h, payload);
    var calls := Trigger(g.listeners, topic, payload);
    if Delivery(h, payload) in calls {
      var k :| 0 <= k < |calls| && calls[k] == Delivery(h, payload);
      assert Publish(g, topic, payload)[k] == Call(Delivery(h, payload));
    }
  }

  /** A frame keeps the invariant (while `| 0` is exact). */
  lemma FrameKeepsInv(g: Game, update: Engine.TickState)
    requires Inv(g) && g.lines + update.lines < ExactLinesBound
    ensures Inv(Frame(g, update).0)
  {
    UpdateScoreKeepsInv(g, update.lines);
  }

  /**
   * Four clears of 4, 4, 1 and 4 lines starting at 40 lines and level 5 add 12500 points and
   * end at level 6: every four-line clear scores 800 per level and the level rises only after
   * the last clear is scored.
   */
  lemma FourFourOneFourFromLevelFive(g: Game)
    requires g.lines == 40 && g.level == 5
    ensures var g1 := UpdateScore(g, 4).0;
            var g2 := UpdateScore(g1, 4).0;
            var g3 := UpdateScore(g2, 1).0;
            var g4 := UpdateScore(g3, 4).0;
            g4.score == g.score + 12500 && g4.lines == 53 && g4.level == 6
  {
  }

  /** A new coordinator satisfies the invariant, is running, and has no score. */
  lemma NewGameStartsClean(v: Variant)
    ensures var g := NewGame(v);
            Inv(g) && !g.pause && g.score == 0 && g.level == 1 && g.lines == 0 && !g.wasTetris && g.listeners == []
  {
  }
}
