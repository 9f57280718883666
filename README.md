# While AI works — mini game, modelled in Dafny

The game is a 3×3 board of nine cells. One flower sprite at a time appears on a
random cell, good with probability 3/4 and bad otherwise, and lives for
900 ms plus a random jitter in [-120, 160] ms. Tapping a good sprite scores a
point. Tapping a bad sprite takes a point away, but never below zero, and
makes the device vibrate; at score zero the cell shakes instead. A
repeating 1000 ms interval spawns a new sprite whenever the board is empty.
`startGame` and `stopGame` switch the interval on and off.

The model has four modules:

- `Helpers` (`helpers.dfy`): `clamp` and `rand`. A value of `Math.random()`
  is an exact fraction `num / den` in [0, 1) (`RandomDraw`). `Rand` is proved
  to stay in `[min, max]`, to reach every value of it, and to be uniform over
  equally likely draws.
- `GameState` (`game_state.dfy`): the six module-level variables as a `State`
  value, the invariant `Inv` every operation keeps, and one transition function
  per operation. Each function's contract says what the operation means:
  - what is on the board afterwards;
  - when a tap is accepted;
  - how the score moves;
  - what stays unchanged.
- `MiniGame` (`game.dfy`): the class `Game`. Its fields are the six variables,
  and its methods update them step by step as the JavaScript does. Each method
  is proved to leave `Snapshot()` equal to the matching `GameState` function
  of the old state. The timer callbacks are methods the environment may call
  at any time and in any order:
  - `Expire(cell)` for the spawn's expiry timeout;
  - `TapClear()` for the 60 ms timeout after an accepted tap;
  - `Tick(draws)` for the interval.

  A method that schedules a timeout returns it (`ExpireAfter(cell, delay)` or
  `ClearAfter(60)`). The random values of a spawn come in as `SpawnDraws`.
  `PlayRound` is a client that uses only the class contracts. It walks through
  a good tap, a repeated tap, a bad tap at a positive score, a bad tap at
  zero, a stale tap after expiry, a double stop and a restart.
- `GameTraces` (`game_traces.dfy`): runs of arbitrary event sequences. Over
  every run:
  - the invariant holds, so the score is never negative;
  - accepted taps never outnumber spawned sprites, so each sprite scores at
    most once;
  - a stopped game with an empty board stays exactly as it is until started;
  - only start and stop change `alive`;
  - without a restart, the score rises by at most one per accepted tap.

"At most one sprite" holds by construction. The board is one `activeIndex`
(-1 for none), and `spawn` clears the old sprite before placing the new one.

Some behaviours of the code are easy to misread; the model keeps them as
written:

- `spawn` calls `clearActive` first. It does not require an empty board.
- `stopGame` has no `alive` guard. It is still idempotent, because its result
  on a stopped, empty game is that same game.
- The expiry timeout compares only the cell index, not the spawn instance. A
  late expiry from an earlier sprite clears a newer sprite at the same cell
  (`StaleExpiryClearsNewerSprite`: a first sprite living 1060 ms outlasts the
  1000 ms tick).
- The 60 ms tap-clear is unconditional. It can remove a sprite spawned after
  the tapped one expired (`TapClearRemovesNewerSprite`: a first sprite living
  960 ms, tapped in its last 20 ms, expires before the tick and leaves the
  tap-clear pending across it).
- A bad tap sets the score to `clamp(score - 1, 0, 9999)`. A score above
  10000, which only good taps can reach, drops to 9999 rather than by one.
  Nothing else caps the score.
- Taps carry a cell index `>= 0`, since cell `data-index` values are 0..8.
  With nothing on the board, an index of -1 would pass the tap guard.

## Model

| member | source | states |
|---|---|---|
| `Helpers.Clamp` | while-ai-works-game/game.js:31 | with lo <= hi the result is in [lo, hi]; a value already in range is returned unchanged; below lo gives lo, above hi gives hi; with hi < lo the result is lo |
| `Helpers.Rand` | while-ai-works-game/game.js:29 | for any draw in [0, 1), floor(u * (max - min + 1)) + min lies in [min, max] |
| `Helpers.RandCoversRange` | while-ai-works-game/game.js:29 | every value of [min, max] is produced by some draw |
| `Helpers.RandUniform` | while-ai-works-game/game.js:29 | over a denominator m times the range size, each value of [min, max] is produced by exactly m numerators (uniform choice) |
| `GameState.Initial` | while-ai-works-game/game.js:21-26 | the declared initial values satisfy the invariant: not alive, empty board, score 0 |
| `GameState.GoodShare` | while-ai-works-game/game.js:55-57 | `Math.random() < 0.75` picks good for exactly 3m of 4m equally likely draws |
| `GameState.KindOf` | while-ai-works-game/game.js:56 | `Math.random() < 0.75 ? 'good' : 'bad'` on an exact draw; its share of good draws is stated by `GoodShare` |
| `GameState.Accepts` | while-ai-works-game/game.js:109 | the negation of the tap guard: the tap is on the sprite's cell and the sprite is not locked, so a sprite is on the board; its effect is stated by `OnCellTap` |
| `GameState.Lifetime` | while-ai-works-game/game.js:65-66 | a sprite lives between 780 and 1060 ms |
| `GameState.ClearActive` | while-ai-works-game/game.js:40-48 | afterwards no sprite is on the board; with a sprite, index -1, kind null and no tap lock; without one, nothing changes (so it is idempotent); score, alive and interval untouched; invariant kept |
| `GameState.Spawn` | while-ai-works-game/game.js:50-57 | whatever was on the board, afterwards exactly the drawn cell in [0, 8] holds a sprite of the drawn kind, untapped; score, alive and interval untouched; invariant kept |
| `GameState.SpawnTimeout` | while-ai-works-game/game.js:65-69 | the expiry a spawn schedules is for a cell in [0, 8] after 780 to 1060 ms |
| `GameState.StartGame` | while-ai-works-game/game.js:72-81 | when alive nothing changes; otherwise alive, interval registered, score 0 and a sprite at the drawn cell; invariant kept |
| `GameState.StopGame` | while-ai-works-game/game.js:83-90 | always ends not alive, without interval and with an empty board, score kept; a stopped empty game is unchanged, so stopping twice is stopping once |
| `GameState.Expire` | while-ai-works-game/game.js:67-69 | clears the board exactly when the sprite is still at the scheduled cell, otherwise changes nothing; never touches score or alive |
| `GameState.Tick` | while-ai-works-game/game.js:80 | spawns only when alive with an empty board, otherwise changes nothing; after a tick of a live game a sprite is on the board |
| `GameState.OnCellTap` | while-ai-works-game/game.js:106-137 | a tap off the sprite's cell or on a locked sprite changes nothing and shows nothing; an accepted tap locks the sprite (a second tap is ignored) and changes only score and lock; good: score + 1 and "+1"; bad with score in 1..10000: score - 1 and "-1" with vibration; bad above 10000: 9999; bad at 0: score stays, shake with vibration; invariant (score >= 0) kept |
| `GameTraces.Step` | while-ai-works-game/game.js:40-137 | every operation and timer callback keeps the invariant |
| `GameTraces.RunKeepsInv` | while-ai-works-game/game.js:40-137 | every sequence of events from a valid state ends in a valid state with a non-negative score |
| `GameTraces.StepPending` | while-ai-works-game/game.js:109-111 | an accepted tap consumes the one scorable sprite; only a spawn creates one |
| `GameTraces.ScoredTapsBounded` | while-ai-works-game/game.js:109-111 | along any run, accepted taps plus a still-scorable sprite never exceed spawns plus the sprite scorable at the start |
| `GameTraces.ScoredTapsAtMostSpawns` | while-ai-works-game/game.js:109-111 | from the initial state no run accepts more taps than it spawns sprites: each sprite scores at most once |
| `GameTraces.IdleUntilStarted` | while-ai-works-game/game.js:72-90 | a stopped game with an empty board is left exactly unchanged by any events other than a start |
| `GameTraces.AliveOnlyByControl` | while-ai-works-game/game.js:72-90 | runs without start or stop leave `alive` unchanged |
| `GameTraces.ScoreRiseBounded` | while-ai-works-game/game.js:112-123 | without a restart the score rises by at most one per accepted tap |
| `GameTraces.StaleExpiryClearsNewerSprite` | while-ai-works-game/game.js:67-69 | a first sprite at cell 4 with a 1060 ms lifetime is tapped and cleared (60 ms < 1000 ms); the tick at 1000 ms spawns an untapped sprite at cell 4; the first sprite's own expiry (for its cell, at 1060 ms, before the second sprite's lifetime ends) removes the second sprite |
| `GameTraces.TapClearRemovesNewerSprite` | while-ai-works-game/game.js:136 | a first sprite at cell 4 with a 960 ms lifetime (between 1000 - 60 and 1000 ms) is tapped, then expires; the tick spawns a new sprite anywhere; the pending tap-clear removes it |
| `MiniGame.Game.constructor` | while-ai-works-game/game.js:21-26 | the fields start at their declared values and satisfy the invariant |
| `MiniGame.Game.ClearActive` | while-ai-works-game/game.js:40-48 | the fields become `GameState.ClearActive` of their old values |
| `MiniGame.Game.Spawn` | while-ai-works-game/game.js:50-70 | the fields become `GameState.Spawn` of their old values; the returned expiry is for the new sprite's cell after `Lifetime` ms |
| `MiniGame.Game.StartGame` | while-ai-works-game/game.js:72-81 | keeps the invariant; the fields become `GameState.StartGame` of their old values; the first sprite's expiry is returned unless the game was alive |
| `MiniGame.Game.StopGame` | while-ai-works-game/game.js:83-90 | keeps the invariant; the fields become `GameState.StopGame` of their old values |
| `MiniGame.Game.OnCellTap` | while-ai-works-game/game.js:106-137 | keeps the invariant; fields and feedback are those of `GameState.OnCellTap`; an accepted tap schedules a clear after 60 ms |
| `MiniGame.Game.Expire` | while-ai-works-game/game.js:67-69 | keeps the invariant; the fields become `GameState.Expire` of their old values |
| `MiniGame.Game.TapClear` | while-ai-works-game/game.js:136 | keeps the invariant; an unconditional `clearActive` |
| `MiniGame.Game.Tick` | while-ai-works-game/game.js:80 | keeps the invariant; the fields become `GameState.Tick` of their old values; returns the new sprite's expiry when it spawned |

## Left out

- Rand: the product `Math.random() * (max - min + 1)` is computed on exact fractions, not IEEE doubles. Rounding of the floating-point product is not modelled.
- Probabilities: `Math.random()` and the 75 % / 25 % weighting are not modelled as probabilities. Draws are caller-supplied fractions. Uniformity and the 3/4 share are proved as counts over equally likely draws (`RandUniform`, `GoodShare`).
- DOM rendering is not modelled: creating the sprite element, clearing a cell's `innerHTML`, and enabling or disabling the start and stop buttons.
- Score display writes are not modelled. The displayed text is always `score`.
- `floatText` is not modelled. Its pixel positioning is floating-point layout, and its 750 ms removal is presentation only. The floating "+1" and "-1" appear only as the `PlusOne` and `MinusOne` feedback.
- The shake animation and `vibrateBad` are not modelled as browser calls. Those calls swallow their failures. They appear only as the `Shake` feedback and the `Vibrates` predicate.
- Event-listener wiring is not modelled; it is browser plumbing. That includes the `window.AI_MINIGAME` hooks and `setBusy`, which changes only a spinner's opacity.
- The one-shot auto-start listener is not modelled separately. It calls `startGame` only when not alive, and `StartGame` already does nothing when alive, so a `Start` event covers it.
- The score is an unbounded integer. In JavaScript it is a double, and `score += 1` would stop changing at 2^53.
- Real time and the order in which timers fire are not modelled. Timer callbacks are events the environment may deliver in any order, at any time.
- The `ASSETS` table and `sample` are not modelled: they are unused by the logic or are asset naming.
