/**
  The game as the browser runs it: six variables updated in place by the
  game's functions and by the callbacks of its timers.

  Each timer callback is a method the environment may call at any time, in
  any order: `Expire` for the expiry timeout a spawn schedules, `TapClear`
  for the timeout after an accepted tap, `Tick` for the spawn interval.
  The methods that schedule a timeout return it, so the environment knows
  which callback to make and after how long. The random values a spawn uses
  are passed in as `SpawnDraws`.
 */
module MiniGame {
  import opened Helpers
  import G = GameState

  class Game {
    var score: int
    var alive: bool
    var spawnTimer: bool
    var activeIndex: int
    var activeKind: G.Option<G.Kind>
    var lockTap: bool

    /** The variables as one value of the game's state. */
    function Snapshot(): G.State
      reads this
    {
      G.State(score, alive, spawnTimer, activeIndex, activeKind, lockTap)
    }

    ghost predicate Valid()
      reads this
    {
      G.Inv(Snapshot())
    }

    constructor ()
      ensures Valid() && Snapshot() == G.Initial()
    {
      score := 0;
      spawnTimer := false;
      alive := false;
      activeIndex := -1;
      activeKind := G.None;
      lockTap := false;
    }

    method ClearActive()
      modifies this
      ensures Snapshot() == G.ClearActive(old(Snapshot()))
    {
      if activeIndex >= 0 {
        activeIndex := -1;
        activeKind := G.None;
        lockTap := false;
      }
    }

    /** Puts a sprite on the board and returns the expiry it schedules for it. */
    method Spawn(d: G.SpawnDraws) returns (expiry: G.Timeout)
      modifies this
      ensures Snapshot() == G.Spawn(old(Snapshot()), d)
      ensures expiry == G.ExpireAfter(activeIndex, G.Lifetime(d.jitter)) == G.SpawnTimeout(d)
    {
      ClearActive();
      var idx := Rand(0, G.Cells - 1, d.cell);
      activeIndex := idx;
      var kind := G.KindOf(d.kind);
      activeKind := G.Some(kind);
      var lifetime := G.BaseLifetime + Rand(G.JitterMin, G.JitterMax, d.jitter);
      expiry := G.ExpireAfter(idx, lifetime);
    }

    /** Returns the expiry of the first sprite, or `None` when the game was already alive. */
    method StartGame(d: G.SpawnDraws) returns (expiry: G.Option<G.Timeout>)
      requires Valid()
      modifies this
      ensures Valid() && Snapshot() == G.StartGame(old(Snapshot()), d)
      ensures expiry == if old(alive) then G.None else G.Some(G.SpawnTimeout(d))
    {
      if alive {
        return G.None;
      }
      alive := true;
      score := 0;
      var first := Spawn(d);
      spawnTimer := true;
      expiry := G.Some(first);
    }

    method StopGame()
      requires Valid()
      modifies this
      ensures Valid() && Snapshot() == G.StopGame(old(Snapshot()))
    {
      alive := false;
      spawnTimer := false;
      ClearActive();
    }

    /**
      A tap on the cell with index `idx`. Returns the feedback shown and, for
      an accepted tap, the timeout that clears the sprite.
     */
    method OnCellTap(idx: int) returns (feedback: G.Feedback, clear: G.Option<G.Timeout>)
      requires Valid() && idx >= 0
      modifies this
      ensures Valid()
      ensures Snapshot() == G.OnCellTap(old(Snapshot()), idx).next
      ensures feedback == G.OnCellTap(old(Snapshot()), idx).feedback
      ensures clear == if feedback == G.Ignored then G.None else G.Some(G.ClearAfter(G.TapClearDelay))
    {
      if idx != activeIndex || lockTap {
        return G.Ignored, G.None;
      }
      lockTap := true;
      var isGood := activeKind == G.Some(G.Good);
      if isGood {
        score := score + 1;
        feedback := G.PlusOne;
      } else {
        if score > 0 {
          score := Clamp(score - 1, 0, G.ScoreCap);
          feedback := G.MinusOne;
        } else {
          feedback := G.Shake;
        }
      }
      clear := G.Some(G.ClearAfter(G.TapClearDelay));
    }

    /** The expiry timeout of a sprite spawned at `cell`. */
    method Expire(cell: int)
      requires Valid()
      modifies this
      ensures Valid() && Snapshot() == G.Expire(old(Snapshot()), cell)
    {
      if activeIndex == cell {
        ClearActive();
      }
    }

    /** The timeout after an accepted tap: clears the board unconditionally. */
    method TapClear()
      requires Valid()
      modifies this
      ensures Valid() && Snapshot() == G.ClearActive(old(Snapshot()))
    {
      ClearActive();
    }

    /** One tick of the spawn interval; returns the expiry of the sprite it spawned, if any. */
    method Tick(d: G.SpawnDraws) returns (expiry: G.Option<G.Timeout>)
      requires Valid()
      modifies this
      ensures Valid() && Snapshot() == G.Tick(old(Snapshot()), d)
      ensures expiry == if old(alive) && old(activeIndex) == -1 then G.Some(G.SpawnTimeout(d)) else G.None
    {
      if alive && activeIndex == -1 {
        var e := Spawn(d);
        expiry := G.Some(e);
      } else {
        expiry := G.None;
      }
    }
  }

  /** A client of `Game`: a good tap, a bad tap with a positive score, a bad tap at zero, a stale tap, a stop. */
  method PlayRound(good: G.SpawnDraws, bad: G.SpawnDraws, at4: G.SpawnDraws)
    requires G.KindOf(good.kind) == G.Good && G.KindOf(bad.kind) == G.Bad
    requires Rand(0, G.Cells - 1, at4.cell) == 4
  {
    var game := new Game();
    var expiry := game.StartGame(good);
    var cell := game.activeIndex;
    var fx, clear := game.OnCellTap(cell);
    assert game.score == 1 && fx == G.PlusOne;
    fx, clear := game.OnCellTap(cell);
    assert game.score == 1 && fx == G.Ignored;
    game.TapClear();

    expiry := game.Tick(bad);
    cell := game.activeIndex;
    fx, clear := game.OnCellTap(cell);
    assert game.score == 0 && fx == G.MinusOne && G.Vibrates(fx);
    game.TapClear();

    expiry := game.Tick(bad);
    cell := game.activeIndex;
    fx, clear := game.OnCellTap(cell);
    assert game.score == 0 && fx == G.Shake && G.Vibrates(fx);
    game.TapClear();

    expiry := game.Tick(at4);
    game.Expire(4);
    fx, clear := game.OnCellTap(4);
    assert game.score == 0 && fx == G.Ignored;

    game.StopGame();
    assert !game.alive && !game.spawnTimer && game.activeIndex == -1;
    game.StopGame();
    assert !game.alive && game.activeIndex == -1 && game.score == 0;
    expiry := game.StartGame(good);
    assert game.alive && game.score == 0 && expiry.Some?;
  }
}
