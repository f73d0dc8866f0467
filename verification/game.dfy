/** A running game: the settled blocks, the falling piece, the progress, the
    keys held down and the loop's counters, and the frame that reads input,
    lets the piece fall or rest, locks it and clears full rows.

    Randomness enters as `rng`: the n-th piece of the game (counting from 0)
    is shape `rng(n).shape` in colour `rng(n).color`.
 */
module Tetris {
  import opened Catalog
  import opened Playfield
  import opened Pieces
  import Progression
  import Timing

  datatype Key = LeftKey | RightKey | DownKey | UpKey | OtherKey

  /** The input events the game reacts to; any other kind of event is
      `OtherEvent` and is ignored. */
  datatype Event = KeyDown(key: Key) | KeyUp(key: Key) | OtherEvent

  /** Which of the three repeating keys are held down. */
  datatype Held = Held(left: bool, right: bool, down: bool)

  const NoneHeld := Held(false, false, false)

  /** One random draw: the catalog shape and the palette colour of a piece. */
  datatype Choice = Choice(shape: ShapeIndex, color: ColorIndex)

  /** `acceleration` counts rounds of input handling since a repeating key
      was last released or the down key last locked a piece (a frame usually
      runs one round, and the first resting frame after a lock by the loop
      runs two); `spawned` counts the pieces
      drawn; `blocked` records whether the last spawned piece failed the
      placement rule where it appeared, the game-over condition the game
      evaluates and then ignores. */
  datatype Game = Game(
    grid: Grid,
    piece: Piece,
    progress: Progression.Progress,
    held: Held,
    acceleration: nat,
    delay: Timing.LockDelay,
    spawned: nat,
    blocked: bool)

  /** What holds of every game between two frames. */
  predicate Inv(s: Game)
  {
    && WellFormed(s.grid)
    && InBounds(s.piece)
    && IsRect(s.piece.shape)
    && Progression.Valid(s.progress)
    && Timing.Bounded(s.delay)
    && s.spawned >= 1
  }

  function Draw(c: Choice): (p: Piece)
    ensures InBounds(p) && IsRect(p.shape)
  {
    CatalogShapes();
    Spawn(c.shape, c.color)
  }

  /** A new game: an empty grid, the first drawn piece at the top, no keys
      held, nothing scored. */
  function Start(rng: nat -> Choice): (s: Game)
    ensures Inv(s) && NoFullRow(s.grid)
    ensures s.grid == EmptyGrid() && forall y, x :: 0 <= y < GridHeight && 0 <= x < GridWidth ==> s.grid[y][x] == Empty
    ensures s.piece == Draw(rng(0)) && Valid(s.grid, s.piece)
    ensures s.progress == Progression.Initial && s.held == NoneHeld
    ensures s.delay == Timing.Idle && s.acceleration == 0 && s.spawned == 1
  {
    Dimensions();
    SpawnFitsEmptyGrid(rng(0).shape, rng(0).color);
    assert EmptyRow()[0] == Empty;
    Game(EmptyGrid(), Draw(rng(0)), Progression.Initial, NoneHeld, 0, Timing.Idle, 1, false)
  }

  /** Whether key k is recorded as held; only the three repeating keys
      ever are. */
  function IsHeld(h: Held, k: Key): bool
  {
    match k
    case LeftKey => h.left
    case RightKey => h.right
    case DownKey => h.down
    case _ => false
  }

  function SetHeld(h: Held, k: Key, b: bool): (r: Held)
    ensures k in {LeftKey, RightKey, DownKey} ==> IsHeld(r, k) == b
    ensures forall k' :: k' != k ==> IsHeld(r, k') == IsHeld(h, k')
  {
    match k
    case LeftKey => h.(left := b)
    case RightKey => h.(right := b)
    case DownKey => h.(down := b)
    case _ => h
  }

  /** A key press starts holding a repeating key or turns the piece; a key
      release stops holding a held key and restarts the acceleration count.
      Events never touch the grid, the progress or the counters of the loop. */
  function ApplyEvent(s: Game, e: Event): (r: Game)
    requires WellFormed(s.grid)
    ensures r.grid == s.grid && r.progress == s.progress && r.delay == s.delay
    ensures r.spawned == s.spawned && r.blocked == s.blocked
    ensures e == KeyDown(UpKey) ==>
      r == s.(piece := TryRotate(s.grid, s.piece))
    ensures e != KeyDown(UpKey) ==> r.piece == s.piece
    ensures e.KeyDown? ==> r.acceleration == s.acceleration
    ensures forall k :: (e.KeyDown? || e.KeyUp?) && k != e.key ==> IsHeld(r.held, k) == IsHeld(s.held, k)
    ensures e.KeyUp? && IsHeld(s.held, e.key) ==> !IsHeld(r.held, e.key) && r.acceleration == 0
    ensures e.KeyUp? && !IsHeld(s.held, e.key) ==> r == s
    ensures e.KeyDown? && e.key in {LeftKey, RightKey, DownKey} ==> IsHeld(r.held, e.key)
    ensures e == OtherEvent ==> r == s
    ensures Inv(s) ==> Inv(r)
  {
    match e
    case KeyDown(k) =>
      if k == UpKey then s.(piece := TryRotate(s.grid, s.piece))
      else s.(held := SetHeld(s.held, k, true))
    case KeyUp(k) =>
      if IsHeld(s.held, k) then s.(held := SetHeld(s.held, k, false), acceleration := 0)
      else s
    case OtherEvent => s
  }

  /** The events of one frame, in the order they arrived. */
  function ApplyEvents(s: Game, es: seq<Event>): (r: Game)
    requires WellFormed(s.grid)
    ensures r.grid == s.grid && r.progress == s.progress && r.delay == s.delay
    ensures r.spawned == s.spawned && r.blocked == s.blocked
    ensures r.piece.x == s.piece.x && r.piece.y == s.piece.y && r.piece.color == s.piece.color
    ensures Inv(s) ==> Inv(r)
    decreases |es|
  {
    if es == [] then s else ApplyEvents(ApplyEvent(s, es[0]), es[1..])
  }

  /** Pressing and releasing a repeating key between two frames moves
      nothing: it only leaves the key released and restarts the
      acceleration count. */
  lemma {:induction false} PressAndRelease(s: Game, k: Key)
    requires WellFormed(s.grid) && k in {LeftKey, RightKey, DownKey}
    ensures ApplyEvents(s, [KeyDown(k), KeyUp(k)])
         == s.(held := SetHeld(s.held, k, false), acceleration := 0)
  {
    var s1 := ApplyEvent(s, KeyDown(k));
    assert [KeyDown(k), KeyUp(k)][1..] == [KeyUp(k)];
    assert ApplyEvents(s1, [KeyUp(k)]) == ApplyEvents(ApplyEvent(s1, KeyUp(k)), []);
  }

  /** Up to n attempts to move the piece one column by dx; an attempt the
      placement rule refuses leaves the piece where it is. */
  function Shift(g: Grid, p: Piece, dx: int, n: nat): (q: Piece)
    requires WellFormed(g)
    ensures q.shape == p.shape && q.color == p.color && q.y == p.y
    ensures dx == 1 ==> p.x <= q.x <= p.x + n
    ensures dx == -1 ==> p.x - n <= q.x <= p.x
    ensures InBounds(p) ==> InBounds(q)
    ensures q != p ==> Valid(g, q)
    ensures Valid(g, p) ==> Valid(g, q)
    decreases n
  {
    if n == 0 then p else Shift(g, TryMove(g, p, dx, 0).piece, dx, n - 1)
  }

  /** Sideways shifts never move a piece that is blocked on that side. */
  lemma {:induction false} ShiftBlocked(g: Grid, p: Piece, dx: int, n: nat)
    requires WellFormed(g) && !Fits(g, p.shape, p.x + dx, p.y)
    ensures Shift(g, p, dx, n) == p
    decreases n
  {
    if n > 0 {
      ShiftBlocked(g, p, dx, n - 1);
    }
  }

  /** Writes the piece into the grid and draws the next piece, recording
      whether the new piece fails the placement rule. */
  function LockPiece(s: Game, rng: nat -> Choice): (r: Game)
    requires WellFormed(s.grid) && InBounds(s.piece)
    ensures WellFormed(r.grid)
    ensures forall y, x :: 0 <= y < GridHeight && 0 <= x < GridWidth ==>
      r.grid[y][x] == if Covers(s.piece, x, y) then Block(s.piece.color) else s.grid[y][x]
    ensures r.piece == Draw(rng(s.spawned)) && r.spawned == s.spawned + 1
    ensures r.blocked <==> !Valid(r.grid, r.piece)
    ensures r.progress == s.progress && r.held == s.held
    ensures r.delay == s.delay && r.acceleration == s.acceleration
    ensures Inv(s) ==> Inv(r)
  {
    var g := Lock(s.grid, s.piece);
    var p := Draw(rng(s.spawned));
    s.(grid := g, piece := p, spawned := s.spawned + 1,
       blocked := !IsValidPlacement(g, p.shape, p.x, p.y))
  }

  /** Counts the round of input handling and shifts the piece for each held
      sideways key, left first: one attempted step, two on every tenth
      round. */
  function Steer(s: Game): (r: Game)
    requires WellFormed(s.grid)
    ensures r == s.(piece := r.piece, acceleration := s.acceleration + 1)
    ensures r.piece.shape == s.piece.shape && r.piece.color == s.piece.color
    ensures r.piece.y == s.piece.y
    ensures !s.held.left && !s.held.right ==> r.piece == s.piece
    ensures InBounds(s.piece) ==> InBounds(r.piece)
  {
    var acc := s.acceleration + 1;
    var n := Timing.Attempts(acc);
    var p1 := if s.held.left then Shift(s.grid, s.piece, -1, n) else s.piece;
    var p2 := if s.held.right then Shift(s.grid, p1, 1, n) else p1;
    s.(piece := p2, acceleration := acc)
  }

  /** The part of a round of input handling after the events: steer, then
      step the piece down for a held down key, locking it and restarting the
      acceleration count when it cannot go down. */
  function InputTick(s: Game, rng: nat -> Choice): (r: Game)
    requires WellFormed(s.grid) && InBounds(s.piece)
    ensures r.progress == s.progress && r.delay == s.delay && r.held == s.held
    ensures r.acceleration == s.acceleration + 1 || r.acceleration == 0
    ensures s.spawned <= r.spawned <= s.spawned + 1
    ensures r.spawned == s.spawned + 1 ==> s.held.down && r.acceleration == 0
    ensures !s.held.down ==> r.grid == s.grid && r.spawned == s.spawned
    ensures !s.held.down && !s.held.left && !s.held.right ==>
      r == s.(acceleration := s.acceleration + 1)
    ensures Inv(s) ==> Inv(r)
  {
    var s1 := Steer(s);
    if s1.held.down then
      var m := TryMove(s1.grid, s1.piece, 0, 1);
      if m.ok then s1.(piece := m.piece)
      else LockPiece(s1, rng).(acceleration := 0)
    else
      s1
  }

  /** Holding only the down key over a piece that cannot go down locks it
      at once and restarts the acceleration count. */
  lemma {:induction false} DownKeyLocks(s: Game, rng: nat -> Choice)
    requires WellFormed(s.grid) && InBounds(s.piece) && s.held == Held(false, false, true)
    requires !Fits(s.grid, s.piece.shape, s.piece.x, s.piece.y + 1)
    ensures InputTick(s, rng) == LockPiece(s, rng).(acceleration := 0)
  {
    assert Steer(s) == s.(acceleration := s.acceleration + 1);
  }

  /** Holding only the left key with room for the steps it attempts moves
      the piece one column left each round and two on every tenth. */
  lemma {:induction false} LeftKeyAccelerates(s: Game)
    requires WellFormed(s.grid) && s.held == Held(true, false, false)
    requires Fits(s.grid, s.piece.shape, s.piece.x - 1, s.piece.y)
    requires Timing.Attempts(s.acceleration + 1) == 2 ==>
      Fits(s.grid, s.piece.shape, s.piece.x - 2, s.piece.y)
    ensures Steer(s).piece.x == s.piece.x - Timing.Attempts(s.acceleration + 1)
  {
    var n := Timing.Attempts(s.acceleration + 1);
    var p1 := TryMove(s.grid, s.piece, -1, 0).piece;
    assert p1 == s.piece.(x := s.piece.x - 1);
    if n == 2 {
      assert Shift(s.grid, s.piece, -1, 2) == Shift(s.grid, p1, -1, 1);
      assert TryMove(s.grid, p1, -1, 0).piece == s.piece.(x := s.piece.x - 2);
    } else {
      assert Shift(s.grid, s.piece, -1, 1) == p1;
    }
  }

  /** Holding only the right key with room for the steps it attempts moves
      the piece one column right each round and two on every tenth. */
  lemma {:induction false} RightKeyAccelerates(s: Game)
    requires WellFormed(s.grid) && s.held == Held(false, true, false)
    requires Fits(s.grid, s.piece.shape, s.piece.x + 1, s.piece.y)
    requires Timing.Attempts(s.acceleration + 1) == 2 ==>
      Fits(s.grid, s.piece.shape, s.piece.x + 2, s.piece.y)
    ensures Steer(s).piece.x == s.piece.x + Timing.Attempts(s.acceleration + 1)
  {
    var n := Timing.Attempts(s.acceleration + 1);
    var p1 := TryMove(s.grid, s.piece, 1, 0).piece;
    assert p1 == s.piece.(x := s.piece.x + 1);
    if n == 2 {
      assert Shift(s.grid, s.piece, 1, 2) == Shift(s.grid, p1, 1, 1);
      assert TryMove(s.grid, p1, 1, 0).piece == s.piece.(x := s.piece.x + 2);
    } else {
      assert Shift(s.grid, s.piece, 1, 1) == p1;
    }
  }

  /** n consecutive rounds of steering, with no events and the piece's row
      fixed in between. */
  function SteerRounds(s: Game, n: nat): (r: Game)
    requires WellFormed(s.grid)
    ensures r.grid == s.grid && r.held == s.held
    decreases n
  {
    if n == 0 then s else SteerRounds(Steer(s), n - 1)
  }

  /** Holding only the left key for n rounds of steering, with every column
      it passes open, moves the piece Timing.HeldAttempts(acc, n) columns
      left: the steps of Steer summed over the rounds. */
  lemma {:induction false} HeldLeftKey(s: Game, n: nat)
    requires WellFormed(s.grid) && s.held == Held(true, false, false)
    requires forall c :: s.piece.x - Timing.HeldAttempts(s.acceleration, n) <= c < s.piece.x ==>
      Fits(s.grid, s.piece.shape, c, s.piece.y)
    ensures SteerRounds(s, n).piece.x == s.piece.x - Timing.HeldAttempts(s.acceleration, n)
    ensures SteerRounds(s, n).acceleration == s.acceleration + n
    decreases n
  {
    if n > 0 {
      var a := Timing.Attempts(s.acceleration + 1);
      var s1 := Steer(s);
      assert Timing.HeldAttempts(s.acceleration, n)
          == a + Timing.HeldAttempts(s1.acceleration, n - 1);
      LeftKeyAccelerates(s);
      HeldLeftKey(s1, n - 1);
    }
  }

  /** Holding only the down key over a piece with room below moves it down
      one row; the round is counted and nothing else changes. */
  lemma {:induction false} DownKeyFalls(s: Game, rng: nat -> Choice)
    requires WellFormed(s.grid) && InBounds(s.piece) && s.held == Held(false, false, true)
    requires Fits(s.grid, s.piece.shape, s.piece.x, s.piece.y + 1)
    ensures InputTick(s, rng)
         == s.(piece := s.piece.(y := s.piece.y + 1), acceleration := s.acceleration + 1)
  {
    assert Steer(s) == s.(acceleration := s.acceleration + 1);
  }

  /** One round of input handling: this frame's events, then the tick. */
  function HandleInput(s: Game, events: seq<Event>, rng: nat -> Choice): (r: Game)
    requires Inv(s)
    ensures Inv(r)
    ensures r.progress == s.progress && r.delay == s.delay
    ensures s.spawned <= r.spawned <= s.spawned + 1
    ensures events == [] && s.held == NoneHeld ==> r == s.(acceleration := s.acceleration + 1)
  {
    InputTick(ApplyEvents(s, events), rng)
  }

  /** Removes the full rows, crediting each to the progress. */
  function ClearStep(s: Game): (r: Game)
    requires Inv(s)
    ensures Inv(r) && NoFullRow(r.grid)
    ensures r.grid == EmptyRows(|FullRows(s.grid)|) + Survivors(s.grid)
    ensures r.progress.score == s.progress.score + Progression.ScorePerRow * |FullRows(s.grid)|
    ensures Progression.Cleared(r.progress) == Progression.Cleared(s.progress) + |FullRows(s.grid)|
    ensures r == s.(grid := r.grid, progress := r.progress)
  {
    var c := ClearRows(s.grid);
    var credited := Progression.CreditRows(s.progress, c.count);
    assert WellFormed(c.grid) && Progression.Valid(credited);
    assert s.progress.rows < Progression.RowsPerLevel;
    s.(grid := c.grid, progress := credited)
  }

  /** A frame that leaves no full row clears nothing and scores nothing. */
  lemma {:induction false} ClearStepIdle(s: Game)
    requires Inv(s) && NoFullRow(s.grid)
    ensures ClearStep(s) == s
  {
    ClearRowsKeepsClearGrid(s.grid);
  }

  /** The loop's reaction to the piece's attempt to fall one row: it falls;
      or it rests and spends a frame of lock delay, handling input once more
      (with the events `late`) on the first such frame since the last lock;
      or, with the delay used up, it locks. */
  function Settle(s: Game, late: seq<Event>, rng: nat -> Choice): (r: Game)
    requires Inv(s)
    ensures Inv(r)
    ensures r.progress == s.progress
    ensures s.spawned <= r.spawned <= s.spawned + 1
  {
    var m := TryMove(s.grid, s.piece, 0, 1);
    var d := Timing.Schedule(s.delay, m.ok);
    var r :=
      if d.action.Fall? then s.(piece := m.piece)
      else if d.action.Wait? then (if d.action.adjust then HandleInput(s, late, rng) else s)
      else LockPiece(s, rng);
    r.(delay := d.next)
  }

  /** A piece with room below falls one row and nothing else changes. */
  lemma {:induction false} SettleFalls(s: Game, late: seq<Event>, rng: nat -> Choice)
    requires Inv(s) && Fits(s.grid, s.piece.shape, s.piece.x, s.piece.y + 1)
    ensures Settle(s, late, rng) == s.(piece := s.piece.(y := s.piece.y + 1))
  {
  }

  /** A resting piece whose lock delay is used up is locked, the next piece
      is drawn, and the delay starts over. */
  lemma {:induction false} SettleLocks(s: Game, late: seq<Event>, rng: nat -> Choice)
    requires Inv(s) && !Fits(s.grid, s.piece.shape, s.piece.x, s.piece.y + 1)
    requires s.delay.counter >= Timing.LockDelayDuration
    ensures Settle(s, late, rng) == LockPiece(s, rng).(delay := Timing.Idle)
  {
  }

  /** A resting piece with delay to spare waits a frame; the extra round of
      input handling happens only while it is still allowed. */
  lemma {:induction false} SettleWaits(s: Game, late: seq<Event>, rng: nat -> Choice)
    requires Inv(s) && !Fits(s.grid, s.piece.shape, s.piece.x, s.piece.y + 1)
    requires s.delay.counter < Timing.LockDelayDuration
    ensures var next := Timing.LockDelay(s.delay.counter + 1, false);
      Settle(s, late, rng)
        == (if s.delay.allowAdjustment then HandleInput(s, late, rng) else s).(delay := next)
  {
  }

  /** One frame of the game loop: handle this frame's events and held keys,
      let the piece fall or rest, then clear full rows. */
  function RunTick(s: Game, events: seq<Event>, late: seq<Event>, rng: nat -> Choice): (r: Game)
    requires Inv(s)
    ensures Inv(r) && NoFullRow(r.grid)
    ensures s.progress.score <= r.progress.score
    ensures s.progress.level <= r.progress.level && s.progress.speed <= r.progress.speed
    ensures s.spawned <= r.spawned <= s.spawned + 2
  {
    ClearStep(Settle(HandleInput(s, events, rng), late, rng))
  }

  /** With no keys held and no events, a piece with room below falls one row
      and nothing else changes but the count of input rounds. */
  lemma {:induction false} QuietFall(s: Game, late: seq<Event>, rng: nat -> Choice)
    requires Inv(s) && NoFullRow(s.grid) && s.held == NoneHeld
    requires Fits(s.grid, s.piece.shape, s.piece.x, s.piece.y + 1)
    ensures RunTick(s, [], late, rng)
         == s.(piece := s.piece.(y := s.piece.y + 1), acceleration := s.acceleration + 1)
  {
    var s1 := HandleInput(s, [], rng);
    assert s1 == s.(acceleration := s.acceleration + 1);
    SettleFalls(s1, late, rng);
    var s2 := Settle(s1, late, rng);
    assert s2 == s1.(piece := s.piece.(y := s.piece.y + 1));
    ClearStepIdle(s2);
  }

  /** With no keys held and no events, a piece that cannot fall and whose
      lock delay is used up locks: the next piece is drawn and the delay
      starts over. */
  lemma {:induction false} StuckPieceLocks(s: Game, late: seq<Event>, rng: nat -> Choice)
    requires Inv(s) && s.held == NoneHeld
    requires !Fits(s.grid, s.piece.shape, s.piece.x, s.piece.y + 1)
    requires s.delay.counter == Timing.LockDelayDuration
    ensures var r := RunTick(s, [], late, rng);
      && r.spawned == s.spawned + 1
      && r.piece == Draw(rng(s.spawned))
      && r.delay == Timing.Idle
  {
    var s1 := HandleInput(s, [], rng);
    SettleLocks(s1, late, rng);
  }

  /** With no keys held and no events, the first frame a piece cannot fall
      after a lock runs the extra round of input handling with the late
      events; the loop itself does not lock the piece, though a Down press
      among the late events still can. */
  lemma {:induction false} FirstRestAdjusts(s: Game, late: seq<Event>, rng: nat -> Choice)
    requires Inv(s) && s.held == NoneHeld && s.delay == Timing.Idle
    requires !Fits(s.grid, s.piece.shape, s.piece.x, s.piece.y + 1)
    ensures var s1 := s.(acceleration := s.acceleration + 1);
      RunTick(s, [], late, rng)
        == ClearStep(HandleInput(s1, late, rng).(delay := Timing.LockDelay(1, false)))
  {
    var s1 := HandleInput(s, [], rng);
    assert s1 == s.(acceleration := s.acceleration + 1);
    SettleWaits(s1, late, rng);
    assert Settle(s1, late, rng) == HandleInput(s1, late, rng).(delay := Timing.LockDelay(1, false));
  }
  /** The first resting frame after a lock by the loop runs two rounds of
      input handling, so with no keys held it adds two to the acceleration
      count. */
  lemma {:induction false} RestingFrameCountsTwice(s: Game, rng: nat -> Choice)
    requires Inv(s) && s.held == NoneHeld && s.delay == Timing.Idle
    requires !Fits(s.grid, s.piece.shape, s.piece.x, s.piece.y + 1)
    ensures RunTick(s, [], [], rng).acceleration == s.acceleration + 2
  {
    var s1 := s.(acceleration := s.acceleration + 1);
    FirstRestAdjusts(s, [], rng);
    assert HandleInput(s1, [], rng) == s1.(acceleration := s.acceleration + 2);
  }

}
