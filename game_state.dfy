/**
  The game's state as a value, and one transition function per operation of
  the game: `clearActive`, `spawn`, `startGame`, `stopGame`, `onCellTap`, the
  expiry timeout scheduled by `spawn` and the tick of the spawn interval.
  The class `MiniGame.Game` runs these operations step by step on its fields;
  the functions here say what each operation does to the state, and their
  contracts say what that means.
 */
module GameState {
  import opened Helpers

  /** The board is a fixed grid of nine cells, indexed 0 to 8. */
  const Cells := 9
  /** The upper bound `clamp` is given when a bad tap takes a point away. */
  const ScoreCap := 9999
  /** A sprite lives `BaseLifetime + rand(JitterMin, JitterMax)` milliseconds. */
  const BaseLifetime := 900
  const JitterMin := -120
  const JitterMax := 160
  /** Delay between an accepted tap and the clearing of its sprite. */
  const TapClearDelay := 60
  /** Period of the spawn interval. */
  const SpawnPeriod := 1000

  datatype Kind = Good | Bad

  datatype Option<T> = None | Some(value: T)

  /**
    The module-level variables of the game. `spawnTimer` is true while the
    spawn interval is registered (its handle is not null); `activeIndex` is
    -1 when no sprite is on the board; `activeKind` is `None` for null.
   */
  datatype State = State(
    score: int,
    alive: bool,
    spawnTimer: bool,
    activeIndex: int,
    activeKind: Option<Kind>,
    lockTap: bool)

  /** The values the variables are declared with. */
  function Initial(): (s: State)
    ensures Inv(s) && !s.alive && !Active(s) && s.score == 0
  {
    State(0, false, false, -1, None, false)
  }

  /** A sprite is on the board. */
  predicate Active(s: State) { s.activeIndex >= 0 }

  /**
    What every operation keeps: the score is not negative, the active index
    is a cell or -1, a kind is recorded exactly when a sprite is on the board,
    a tap lock only exists for a sprite on the board, and the interval is
    registered exactly while the game is alive.
   */
  predicate Inv(s: State)
  {
    && s.score >= 0
    && -1 <= s.activeIndex < Cells
    && (Active(s) <==> s.activeKind.Some?)
    && (s.lockTap ==> Active(s))
    && s.spawnTimer == s.alive
  }

  /** The three `Math.random()` values one spawn consumes. */
  datatype SpawnDraws = SpawnDraws(cell: RandomDraw, kind: RandomDraw, jitter: RandomDraw)

  /** A timeout the game schedules: the expiry of the sprite spawned at `cell`, or the clearing after a tap. */
  datatype Timeout = ExpireAfter(cell: int, delay: int) | ClearAfter(delay: int)

  /** `Math.random() < 0.75 ? 'good' : 'bad'`, with `u = num / den`. */
  function KindOf(u: RandomDraw): Kind
  {
    if 4 * u.num < 3 * u.den then Good else Bad
  }

  predicate IsGoodDraw(den: nat, k: int)
  {
    0 <= k < den && KindOf(Fraction(k, den)) == Good
  }

  /** Three quarters of equally likely draws give a good sprite. */
  lemma GoodShare(m: nat, den: nat)
    requires den == 4 * m
    ensures |set k | 0 <= k < den && IsGoodDraw(den, k)| == 3 * m
  {
    forall k | 0 <= k < den
      ensures IsGoodDraw(den, k) <==> InBand(k, 0, 3 * m)
    {
    }
    GoodDrawsAreBand(den, 3 * m);
    BandCard(den, 0, 3 * m);
  }

  lemma GoodDrawsAreBand(den: nat, hi: nat)
    requires forall k :: 0 <= k < den ==> (IsGoodDraw(den, k) <==> InBand(k, 0, hi))
    ensures (set k | 0 <= k < den && IsGoodDraw(den, k)) == (set k | 0 <= k < den && InBand(k, 0, hi))
  {
  }

  /** The lifetime `900 + rand(-120, 160)` of a sprite, in milliseconds. */
  function Lifetime(u: RandomDraw): (ms: int)
    ensures BaseLifetime + JitterMin <= ms <= BaseLifetime + JitterMax
  {
    BaseLifetime + Rand(JitterMin, JitterMax, u)
  }

  /** `clearActive`: removes the sprite on the board, if any. */
  function ClearActive(s: State): (t: State)
    ensures !Active(t)
    ensures !Active(s) ==> t == s
    ensures Active(s) ==> t.activeIndex == -1 && t.activeKind == None && !t.lockTap
    ensures t.score == s.score && t.alive == s.alive && t.spawnTimer == s.spawnTimer
    ensures Inv(s) ==> Inv(t) && !t.lockTap
  {
    if s.activeIndex >= 0 then s.(activeIndex := -1, activeKind := None, lockTap := false) else s
  }

  /**
    `spawn`: clears the board, then puts a sprite of the drawn kind on the
    drawn cell. Whatever was on the board before, exactly one untapped sprite
    is on it afterwards.
   */
  function Spawn(s: State, d: SpawnDraws): (t: State)
    ensures 0 <= t.activeIndex < Cells && t.activeIndex == Rand(0, Cells - 1, d.cell)
    ensures t.activeKind == Some(KindOf(d.kind))
    ensures t.score == s.score && t.alive == s.alive && t.spawnTimer == s.spawnTimer
    ensures Inv(s) ==> Inv(t) && !t.lockTap
  {
    var cleared := ClearActive(s);
    cleared.(activeIndex := Rand(0, Cells - 1, d.cell), activeKind := Some(KindOf(d.kind)))
  }

  /** The expiry `spawn` schedules for the sprite it put on the board. */
  function SpawnTimeout(d: SpawnDraws): (t: Timeout)
    ensures t.ExpireAfter? && 0 <= t.cell < Cells
    ensures 780 <= t.delay <= 1060
  {
    ExpireAfter(Rand(0, Cells - 1, d.cell), Lifetime(d.jitter))
  }

  /**
    `startGame`: nothing when the game is alive; otherwise the game becomes
    alive with score 0, one sprite on the board and the interval registered.
   */
  function StartGame(s: State, d: SpawnDraws): (t: State)
    ensures s.alive ==> t == s
    ensures !s.alive ==> t.alive && t.spawnTimer && t.score == 0
    ensures !s.alive ==> Active(t) && t.activeIndex == Rand(0, Cells - 1, d.cell) && t.activeKind == Some(KindOf(d.kind))
    ensures Inv(s) ==> Inv(t)
    ensures Inv(s) && !s.alive ==> !t.lockTap
  {
    if s.alive then s else Spawn(s.(alive := true, score := 0), d).(spawnTimer := true)
  }

  /**
    `stopGame`: whatever the state, afterwards the game is not alive, the
    interval is gone and the board is empty; the score is kept. On a game
    already in that condition it changes nothing, so stopping twice is
    stopping once.
   */
  function StopGame(s: State): (t: State)
    ensures !t.alive && !t.spawnTimer && !Active(t) && t.score == s.score
    ensures !s.alive && !s.spawnTimer && !Active(s) ==> t == s
    ensures Inv(s) ==> Inv(t) && !t.lockTap
  {
    ClearActive(s.(alive := false, spawnTimer := false))
  }

  /** The expiry timeout of the sprite spawned at `cell`: clears the board if a sprite is still at that cell. */
  function Expire(s: State, cell: int): (t: State)
    ensures cell != s.activeIndex ==> t == s
    ensures cell == s.activeIndex ==> !Active(t) && t == ClearActive(s)
    ensures t.score == s.score && t.alive == s.alive
    ensures Inv(s) ==> Inv(t)
  {
    if s.activeIndex == cell then ClearActive(s) else s
  }

  /** The interval tick: spawns only while alive and with an empty board. */
  function Tick(s: State, d: SpawnDraws): (t: State)
    ensures !(s.alive && s.activeIndex == -1) ==> t == s
    ensures s.alive && s.activeIndex == -1 ==> t == Spawn(s, d)
    ensures Inv(s) && s.alive ==> Active(t)
    ensures t.score == s.score && t.alive == s.alive
    ensures Inv(s) ==> Inv(t)
  {
    if s.alive && s.activeIndex == -1 then Spawn(s, d) else s
  }

  /** What the player sees and feels after a tap. */
  datatype Feedback =
    | Ignored   // the tap is not accepted: no feedback at all
    | PlusOne   // floating "+1"
    | MinusOne  // floating "-1" and a vibration
    | Shake     // the cell shakes and the device vibrates

  predicate Vibrates(f: Feedback) { f == MinusOne || f == Shake }

  datatype TapResult = TapResult(next: State, feedback: Feedback)

  /** A tap on cell `idx` is accepted: it is the cell of the sprite, and no tap was accepted for the sprite yet. */
  predicate Accepts(s: State, idx: int): (ok: bool)
    ensures ok && idx >= 0 ==> Active(s) && !s.lockTap
  {
    idx == s.activeIndex && !s.lockTap
  }

  /**
    `onCellTap` on the cell with index `idx`. A tap that is not accepted
    changes nothing. An accepted tap locks the sprite, so a second tap on it
    is not accepted; a good sprite adds exactly one point, a bad one takes a
    point away through `clamp(score - 1, 0, 9999)` when the score is positive
    and only shakes the cell when it is zero. The score never goes negative.
   */
  function OnCellTap(s: State, idx: int): (r: TapResult)
    requires idx >= 0
    ensures !Accepts(s, idx) ==> r == TapResult(s, Ignored)
    ensures Accepts(s, idx) ==> Active(s) && r.feedback != Ignored && !Accepts(r.next, idx)
    ensures Accepts(s, idx) ==> r.next == s.(score := r.next.score, lockTap := true)
    ensures Accepts(s, idx) && s.activeKind == Some(Good) ==> r.next.score == s.score + 1 && r.feedback == PlusOne
    ensures Accepts(s, idx) && s.activeKind != Some(Good) ==> Vibrates(r.feedback)
    ensures Accepts(s, idx) && s.activeKind != Some(Good) && 0 < s.score <= ScoreCap + 1 ==>
              r.next.score == s.score - 1 && r.feedback == MinusOne
    ensures Accepts(s, idx) && s.activeKind != Some(Good) && ScoreCap + 1 < s.score ==>
              r.next.score == ScoreCap && r.feedback == MinusOne
    ensures Accepts(s, idx) && s.activeKind != Some(Good) && s.score <= 0 ==>
              r.next.score == s.score && r.feedback == Shake
    ensures Inv(s) ==> Inv(r.next)
  {
    if idx != s.activeIndex || s.lockTap then TapResult(s, Ignored)
    else
      var locked := s.(lockTap := true);
      if s.activeKind == Some(Good) then TapResult(locked.(score := s.score + 1), PlusOne)
      else if s.score > 0 then TapResult(locked.(score := Clamp(s.score - 1, 0, ScoreCap)), MinusOne)
      else TapResult(locked, Shake)
  }
}
