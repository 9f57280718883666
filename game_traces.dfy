/**
  Runs of the game: any sequence of the calls the browser may make — the
  start and stop controls, taps on cells, expiry timeouts, tap-clear
  timeouts and interval ticks — in any order. The lemmas here hold for every
  such sequence, however the timers happen to interleave.
 */
module GameTraces {
  import opened Helpers
  import G = GameState

  datatype Event =
    | Start(draws: G.SpawnDraws)        // `startGame`, from the start button, the API or the first pointer-down
    | Stop                              // `stopGame`
    | CellTap(idx: nat)                 // `onCellTap` on the cell with data-index `idx`
    | Expiry(cell: int)                 // the expiry timeout scheduled by a spawn at `cell`
    | TapCleared                        // the 60 ms timeout after an accepted tap
    | IntervalTick(draws: G.SpawnDraws) // one tick of the spawn interval

  function Step(s: G.State, e: Event): (t: G.State)
    ensures G.Inv(s) ==> G.Inv(t)
  {
    match e
    case Start(d) => G.StartGame(s, d)
    case Stop => G.StopGame(s)
    case CellTap(idx) => G.OnCellTap(s, idx).next
    case Expiry(cell) => G.Expire(s, cell)
    case TapCleared => G.ClearActive(s)
    case IntervalTick(d) => G.Tick(s, d)
  }

  function Run(s: G.State, es: seq<Event>): G.State
    decreases |es|
  {
    if es == [] then s else Run(Step(s, es[0]), es[1..])
  }

  /** Every run keeps the invariant; in particular the score is never negative. */
  lemma {:induction false} RunKeepsInv(s: G.State, es: seq<Event>)
    requires G.Inv(s)
    ensures G.Inv(Run(s, es)) && Run(s, es).score >= 0
    decreases |es|
  {
    if es != [] {
      RunKeepsInv(Step(s, es[0]), es[1..]);
    }
  }

  /** The event puts a new sprite on the board. */
  predicate Spawns(s: G.State, e: Event)
  {
    match e
    case Start(_) => !s.alive
    case IntervalTick(_) => s.alive && s.activeIndex == -1
    case _ => false
  }

  /** The event is a tap the game accepts. */
  predicate Scores(s: G.State, e: Event)
  {
    e.CellTap? && G.Accepts(s, e.idx)
  }

  function SpawnCount(s: G.State, es: seq<Event>): nat
    decreases |es|
  {
    if es == [] then 0
    else (if Spawns(s, es[0]) then 1 else 0) + SpawnCount(Step(s, es[0]), es[1..])
  }

  function ScoredTaps(s: G.State, es: seq<Event>): nat
    decreases |es|
  {
    if es == [] then 0
    else (if Scores(s, es[0]) then 1 else 0) + ScoredTaps(Step(s, es[0]), es[1..])
  }

  /** 1 when a sprite is on the board that can still be scored, else 0. */
  function Pending(s: G.State): nat
  {
    if G.Active(s) && !s.lockTap then 1 else 0
  }

  lemma StepPending(s: G.State, e: Event)
    ensures (if Scores(s, e) then 1 else 0) + Pending(Step(s, e)) <= Pending(s) + (if Spawns(s, e) then 1 else 0)
  {
  }

  /**
    Each sprite is scored at most once: along any run, the accepted taps
    never outnumber the sprites spawned (plus the one that may already be on
    the board), whatever the timing of taps, expiries and tap-clears.
   */
  lemma {:induction false} ScoredTapsBounded(s: G.State, es: seq<Event>)
    ensures ScoredTaps(s, es) + Pending(Run(s, es)) <= Pending(s) + SpawnCount(s, es)
    decreases |es|
  {
    if es != [] {
      StepPending(s, es[0]);
      ScoredTapsBounded(Step(s, es[0]), es[1..]);
    }
  }

  /** From the initial state, no run accepts more taps than it spawns sprites. */
  lemma ScoredTapsAtMostSpawns(es: seq<Event>)
    ensures ScoredTaps(G.Initial(), es) <= SpawnCount(G.Initial(), es)
  {
    ScoredTapsBounded(G.Initial(), es);
  }

  /** A game that is stopped with an empty board. */
  predicate Idle(s: G.State)
  {
    !s.alive && !s.spawnTimer && !G.Active(s)
  }

  predicate NoStart(es: seq<Event>)
  {
    forall i :: 0 <= i < |es| ==> !es[i].Start?
  }

  /**
    A stopped game stays exactly as it is until it is started again: taps,
    late timeouts, ticks and further stops change nothing, the score included.
   */
  lemma {:induction false} IdleUntilStarted(s: G.State, es: seq<Event>)
    requires Idle(s) && NoStart(es)
    ensures Run(s, es) == s
  {
    if es != [] {
      assert Step(s, es[0]) == s by { assert !es[0].Start?; }
      IdleUntilStarted(s, es[1..]);
    }
  }

  predicate NoControl(es: seq<Event>)
  {
    forall i :: 0 <= i < |es| ==> !es[i].Start? && !es[i].Stop?
  }

  /** Only starting and stopping change whether the game is alive. */
  lemma {:induction false} AliveOnlyByControl(s: G.State, es: seq<Event>)
    requires NoControl(es)
    ensures Run(s, es).alive == s.alive
    decreases |es|
  {
    if es != [] {
      assert !es[0].Start? && !es[0].Stop?;
      AliveOnlyByControl(Step(s, es[0]), es[1..]);
    }
  }

  /** Without a restart, the score rises by at most one point per accepted tap. */
  lemma {:induction false} ScoreRiseBounded(s: G.State, es: seq<Event>)
    requires NoStart(es)
    ensures Run(s, es).score <= s.score + ScoredTaps(s, es)
    decreases |es|
  {
    if es != [] {
      assert !es[0].Start?;
      ScoreRiseBounded(Step(s, es[0]), es[1..]);
    }
  }

  /** A good sprite at cell 4 that lives 1060 ms, the longest lifetime. */
  function LongLivedAtFour(): G.SpawnDraws
  {
    G.SpawnDraws(Fraction(4, 9), Fraction(0, 1), Fraction(280, 281))
  }

  /** A good sprite at cell 4 that lives 960 ms, a little less than the spawn period. */
  function ShortLivedAtFour(): G.SpawnDraws
  {
    G.SpawnDraws(Fraction(4, 9), Fraction(0, 1), Fraction(180, 281))
  }

  /**
    The expiry only compares cell indices. The game starts with a sprite at
    cell 4 that lives 1060 ms; it is tapped at once and cleared 60 ms later.
    The tick at 1000 ms spawns a second, untapped sprite at cell 4. At 1060 ms
    the first sprite's expiry fires and removes the second sprite, whose own
    lifetime runs past 1780 ms.
   */
  lemma StaleExpiryClearsNewerSprite(d: G.SpawnDraws)
    requires Rand(0, G.Cells - 1, d.cell) == 4
    ensures var stale := G.SpawnTimeout(LongLivedAtFour());
            var beforeExpiry := Run(G.Initial(), [Start(LongLivedAtFour()), CellTap(4), TapCleared, IntervalTick(d)]);
            && stale.cell == 4
            && G.TapClearDelay < G.SpawnPeriod < stale.delay < G.SpawnPeriod + G.SpawnTimeout(d).delay
            && beforeExpiry.activeIndex == stale.cell && !beforeExpiry.lockTap
            && !G.Active(Step(beforeExpiry, Expiry(stale.cell)))
  {
    var first := LongLivedAtFour();
    assert Rand(G.JitterMin, G.JitterMax, first.jitter) == 160;
    var es := [Start(first), CellTap(4), TapCleared, IntervalTick(d)];
    var started := Step(G.Initial(), es[0]);
    var tapped := Step(started, es[1]);
    var cleared := Step(tapped, es[2]);
    assert started.activeIndex == 4 && tapped.lockTap && !G.Active(cleared) && cleared.alive;
    var ticked := Step(cleared, es[3]);
    assert es[1..][1..] == es[2..] && es[2..][1..] == es[3..] && es[3..][1..] == [];
    calc {
      Run(G.Initial(), es);
      Run(started, es[1..]);
      Run(tapped, es[2..]);
      Run(cleared, es[3..]);
      Run(ticked, []);
    }
  }

  /**
    The tap-clear timeout is unconditional. The game starts with a sprite at
    cell 4 that lives 960 ms. A tap shortly before it expires (after 940 ms)
    schedules a clear that fires after the tick at 1000 ms. The expiry at
    960 ms empties the board first, the tick spawns a new sprite, and the
    pending tap-clear then removes that new sprite, wherever it is.
   */
  lemma TapClearRemovesNewerSprite(d: G.SpawnDraws)
    ensures var tapped := G.SpawnTimeout(ShortLivedAtFour());
            var beforeClear := Run(G.Initial(), [Start(ShortLivedAtFour()), CellTap(4), Expiry(tapped.cell), IntervalTick(d)]);
            && tapped.cell == 4
            && G.SpawnPeriod - G.TapClearDelay < tapped.delay < G.SpawnPeriod
            && G.Active(beforeClear) && !beforeClear.lockTap
            && !G.Active(Step(beforeClear, TapCleared))
  {
    var first := ShortLivedAtFour();
    assert Rand(G.JitterMin, G.JitterMax, first.jitter) == 60;
    var es := [Start(first), CellTap(4), Expiry(4), IntervalTick(d)];
    var started := Step(G.Initial(), es[0]);
    var tapped := Step(started, es[1]);
    var expired := Step(tapped, es[2]);
    assert started.activeIndex == 4 && tapped.lockTap && !G.Active(expired) && expired.alive;
    var ticked := Step(expired, es[3]);
    assert es[1..][1..] == es[2..] && es[2..][1..] == es[3..] && es[3..][1..] == [];
    calc {
      Run(G.Initial(), es);
      Run(started, es[1..]);
      Run(tapped, es[2..]);
      Run(expired, es[3..]);
      Run(ticked, []);
    }
  }
}
