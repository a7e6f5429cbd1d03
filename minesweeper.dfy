/** The mine-sweeper game machine (gameMachine in app/routes/index.tsx) on a
    fixed 6-by-6 board with 7 bombs. The game owns one cell actor per board
    position, kept in `cells` in the row-major order fillField spawns them,
    and the bomb coordinates in `bombsCoords`.

    Message delivery is sequential: an event a cell receives from the player
    runs to completion, the messages it sends to the game go into a FIFO
    worklist, and the game handles them one at a time; REVEAL sent by the
    game to a cell is handled at once and the cell's answers join the back
    of the worklist. Step is the game's handling of one message and Run the
    draining of the worklist; the class Game at the end is the imperative
    machine, proved equal to them. */
module Minesweeper {
  import opened Utils
  import opened CellMachine

  const ROWS: int := 6
  const COLS: int := 6
  const BOMBS: int := 7

  datatype Status = Playing | Won | Lost

  /** The position of the k-th spawned cell: fillField spawns row by row. */
  function Pos(k: int): Coord {
    (k / COLS, k % COLS)
  }

  /** The index in `cells` of the cell at an on-board coordinate. */
  function Index(c: Coord): int {
    c.0 * COLS + c.1
  }

  lemma PosIndex()
    ensures forall c :: IsInLimits(c, ROWS, COLS) ==> 0 <= Index(c) < ROWS * COLS && Pos(Index(c)) == c
    ensures forall k :: 0 <= k < ROWS * COLS ==> IsInLimits(Pos(k), ROWS, COLS) && Index(Pos(k)) == k
  {
  }

  lemma PosAt(k: int)
    requires 0 <= k < ROWS * COLS
    ensures IsInLimits(Pos(k), ROWS, COLS) && Index(Pos(k)) == k
  {
  }

  lemma IndexAt(c: Coord)
    requires IsInLimits(c, ROWS, COLS)
    ensures 0 <= Index(c) < ROWS * COLS && Pos(Index(c)) == c
  {
  }

  // ---------------------------------------------------------------------
  // fillField
  // ---------------------------------------------------------------------

  /** The count of fillField's forEach: how many of ns are bombs. */
  function CountBombs(ns: seq<Coord>, bombs: seq<Coord>): nat {
    if ns == [] then 0
    else CountBombs(ns[..|ns| - 1], bombs) + (if ns[|ns| - 1] in bombs then 1 else 0)
  }

  /** The value fillField gives the cell at c: 'X' on a bomb, otherwise the
      number of its neighbours that are bombs. */
  function ValueAt(bombs: seq<Coord>, c: Coord): Value {
    if c in bombs then Mine else Count(CountBombs(Neighbors(c, ROWS, COLS), bombs))
  }

  /** The cells fillField spawns, all unrevealed, in row-major order. */
  function Field(bombs: seq<Coord>): seq<Cell> {
    seq(ROWS * COLS, k => Cell(Pos(k), ValueAt(bombs, Pos(k)), Unrevealed))
  }

  /** A board as fillField leaves it, up to the cells' states: BOMBS
      different on-board bomb coordinates, one cell per position in
      row-major order, and every cell's value as fillField computed it. */
  ghost predicate WellFormed(cells: seq<Cell>, bombs: seq<Coord>) {
    && |bombs| == BOMBS && Distinct(bombs)
    && (forall b <- bombs :: IsInLimits(b, ROWS, COLS))
    && Laid(cells)
    && forall k :: 0 <= k < |cells| ==> cells[k].value == ValueAt(bombs, Pos(k))
  }

  /** One cell per board position, in row-major order. */
  ghost predicate Laid(cells: seq<Cell>) {
    |cells| == ROWS * COLS && forall k :: 0 <= k < |cells| ==> cells[k].coords == Pos(k)
  }

  /** fillField: place the bombs with getNRandomCoords, then spawn the cells
      row by row, counting each safe cell's bomb neighbours. */
  method FillField(draws: seq<Coord>) returns (cells: seq<Cell>, bombsCoords: seq<Coord>)
    requires forall d <- draws :: IsInLimits(d, ROWS, COLS)
    requires RandomCoords(BOMBS, draws).Some?
    ensures bombsCoords == RandomCoords(BOMBS, draws).value
    ensures cells == Field(bombsCoords)
  {
    var placed := GetNRandomCoords(BOMBS, ROWS, COLS, draws);
    bombsCoords := placed.value;
    cells := [];
    for row := 0 to ROWS
      invariant cells == Field(bombsCoords)[..row * COLS]
    {
      for col := 0 to COLS
        invariant cells == Field(bombsCoords)[..row * COLS + col]
      {
        var value: Value;
        if (row, col) in bombsCoords {
          value := Mine;
        } else {
          var neighbors := GetNeighbors((row, col), ROWS, COLS);
          var count := 0;
          for i := 0 to |neighbors|
            invariant count == CountBombs(neighbors[..i], bombsCoords)
          {
            assert neighbors[..i + 1][..i] == neighbors[..i];
            if neighbors[i] in bombsCoords {
              count := count + 1;
            }
          }
          assert neighbors[..|neighbors|] == neighbors;
          value := Count(count);
        }
        assert Pos(row * COLS + col) == (row, col);
        cells := cells + [Cell((row, col), value, Unrevealed)];
      }
    }
  }

  // ---------------------------------------------------------------------
  // Looking cells up, counting them, checking for a win
  // ---------------------------------------------------------------------

  /** context.cells.find by id: the first cell whose coordinates are c. */
  function FindCell(cells: seq<Cell>, c: Coord): (r: Option<nat>)
    ensures r.Some? ==> r.value < |cells| && cells[r.value].coords == c
    ensures r.Some? ==> forall j :: 0 <= j < r.value ==> cells[j].coords != c
    ensures r.None? ==> forall j :: 0 <= j < |cells| ==> cells[j].coords != c
  {
    if cells == [] then None
    else if cells[0].coords == c then Some(0)
    else
      match FindCell(cells[1..], c)
      case None => None
      case Some(j) => Some(j + 1)
  }

  /** cells.filter(cell => cell's state is s).length */
  function CountState(cells: seq<Cell>, s: CellState): nat {
    if cells == [] then 0
    else (if cells[0].state == s then 1 else 0) + CountState(cells[1..], s)
  }

  /** cells.filter(cell => cell's state is flagged) */
  function Flaggeds(cells: seq<Cell>): (r: seq<Cell>)
    ensures forall c :: c in r <==> c in cells && c.state == Flagged
  {
    if cells == [] then []
    else (if cells[0].state == Flagged then [cells[0]] else []) + Flaggeds(cells[1..])
  }

  /** flaggeds.some(flagged => flagged's coords equal b) */
  function SomeAt(flaggeds: seq<Cell>, b: Coord): (r: bool)
    ensures r <==> exists c <- flaggeds :: c.coords == b
  {
    if flaggeds == [] then false
    else flaggeds[0].coords == b || SomeAt(flaggeds[1..], b)
  }

  /** bombsCoords.every(bomb => flaggeds.some(...)) */
  function EveryAt(bombs: seq<Coord>, flaggeds: seq<Cell>): (r: bool)
    ensures r <==> forall b <- bombs :: SomeAt(flaggeds, b)
  {
    if bombs == [] then true
    else
      var rest := EveryAt(bombs[1..], flaggeds);
      assert (forall b <- bombs :: SomeAt(flaggeds, b)) <==>
        SomeAt(flaggeds, bombs[0]) && forall b <- bombs[1..] :: SomeAt(flaggeds, b);
      SomeAt(flaggeds, bombs[0]) && rest
  }

  /** checkWin: no cell is unrevealed, and every bomb coordinate is the
      coordinate of some flagged cell. Flags on safe cells do not matter. */
  function CheckWin(cells: seq<Cell>, bombs: seq<Coord>): (win: bool)
    ensures win <==>
      (forall c <- cells :: c.state != Unrevealed) &&
      (forall b <- bombs :: exists c <- cells :: c.state == Flagged && c.coords == b)
  {
    CountStateZero(cells, Unrevealed);
    CountState(cells, Unrevealed) == 0 && EveryAt(bombs, Flaggeds(cells))
  }

  lemma {:induction false} CountStateZero(cells: seq<Cell>, s: CellState)
    ensures CountState(cells, s) == 0 <==> forall c <- cells :: c.state != s
  {
    if cells != [] {
      CountStateZero(cells[1..], s);
      assert cells == [cells[0]] + cells[1..];
    }
  }

  lemma {:induction false} CountStateUpdate(cells: seq<Cell>, k: nat, c: Cell, s: CellState)
    requires k < |cells|
    ensures CountState(cells[k := c], s) ==
      CountState(cells, s) - (if cells[k].state == s then 1 else 0) + (if c.state == s then 1 else 0)
  {
    if k > 0 {
      CountStateUpdate(cells[1..], k - 1, c, s);
      assert cells[k := c][1..] == cells[1..][k - 1 := c];
    }
  }

  // ---------------------------------------------------------------------
  // The game's handling of one message
  // ---------------------------------------------------------------------

  /** The cells after handling a message, the new state of the game, and
      the messages the handling sends to the game. */
  datatype Reaction = Reaction(cells: seq<Cell>, status: Status, sent: seq<GameEvent>)

  /** The forEach of revealEmpties and revealNeighbors: each target is looked
      up by id and, when found, sent REVEAL. */
  function RevealTargets(cells: seq<Cell>, ts: seq<Coord>): (r: (seq<Cell>, seq<GameEvent>))
    ensures |r.0| == |cells|
    decreases |ts|
  {
    if ts == [] then (cells, [])
    else
      var (cs, sent) := RevealTargets(cells, ts[..|ts| - 1]);
      match FindCell(cs, ts[|ts| - 1])
      case None => (cs, sent)
      case Some(k) =>
        var (c, out) := Receive(cs[k], Reveal);
        (cs[k := c], sent + out)
  }

  /** The forEach of explode over the first n cells: each is sent REVEAL. */
  function RevealFirst(cells: seq<Cell>, n: nat): (r: (seq<Cell>, seq<GameEvent>))
    requires n <= |cells|
    ensures |r.0| == |cells|
  {
    if n == 0 then (cells, [])
    else
      var (cs, sent) := RevealFirst(cells, n - 1);
      var (c, out) := Receive(cs[n - 1], Reveal);
      (cs[n - 1 := c], sent + out)
  }

  /** The game machine's handling of one message. WIN and RESTART are
      handled in every state (RESTART is a method of Game); REVEAL_EMPTIES,
      REVEAL_NEIGHBORS, UNREVEAL and EXPLODE only while playing; FLAG and
      UNFLAG nowhere. So once the game is over every message but WIN is
      ignored, and the state changes only to won on WIN or to lost on an
      EXPLODE while playing. */
  function Step(cells: seq<Cell>, bombs: seq<Coord>, status: Status, m: GameEvent): (r: Reaction)
    ensures |r.cells| == |cells|
    ensures status != Playing && m != Win ==> r == Reaction(cells, status, [])
    ensures r.status != status ==>
      (m == Win && r.status == Won) || (m.Explode? && status == Playing && r.status == Lost)
  {
    match m
    case Win => Reaction(cells, Won, [])
    case Flag(_) => Reaction(cells, status, [])
    case Unflag(_) => Reaction(cells, status, [])
    case Unreveal(_) =>
      Reaction(cells, status, if status == Playing && CheckWin(cells, bombs) then [Win] else [])
    case Explode(_) =>
      if status != Playing then Reaction(cells, status, [])
      else
        var (cs, sent) := RevealFirst(cells, |cells|);
        Reaction(cs, Lost, sent)
    case RevealEmpties(at) =>
      if status != Playing then Reaction(cells, status, [])
      else
        var (cs, sent) := RevealTargets(cells, Neighbors(at, ROWS, COLS));
        Reaction(cs, Playing, sent)
    case RevealNeighbors(at) =>
      if status != Playing then Reaction(cells, status, [])
      else
        var (cs, sent) := RevealTargets(cells, Neighbors(at, ROWS, COLS));
        Reaction(cs, Playing, sent)
  }

  /** The cells have kept their coordinates and values, and the only state
      change is from unrevealed to revealed. */
  ghost predicate Advances(a: seq<Cell>, b: seq<Cell>) {
    |b| == |a| &&
    forall k :: 0 <= k < |a| ==>
      b[k].coords == a[k].coords && b[k].value == a[k].value &&
      (b[k].state == a[k].state || (a[k].state == Unrevealed && b[k].state == Revealed))
  }

  /** Advancing keeps a board well formed: coordinates and values stay. */
  lemma AdvancesWellFormed(a: seq<Cell>, b: seq<Cell>, bombs: seq<Coord>)
    requires WellFormed(a, bombs) && Advances(a, b)
    ensures WellFormed(b, bombs)
  {
  }

  /** The number of unrevealed cells. */
  function Hidden(cells: seq<Cell>): nat {
    CountState(cells, Unrevealed)
  }

  /** A measure of the worklist: WIN weighs 1, every other message 2. */
  function Weight(q: seq<GameEvent>): nat {
    if q == [] then 0 else (if q[0] == Win then 1 else 2) + Weight(q[1..])
  }

  lemma {:induction false} WeightAppend(a: seq<GameEvent>, b: seq<GameEvent>)
    ensures Weight(a + b) == Weight(a) + Weight(b)
  {
    if a != [] {
      WeightAppend(a[1..], b);
      assert (a + b)[0] == a[0] && (a + b)[1..] == a[1..] + b;
      assert Weight(a + b) == (if a[0] == Win then 1 else 2) + Weight(a[1..] + b);
    } else {
      assert a + b == b;
    }
  }

  /** Sending REVEAL to targets only reveals unrevealed cells; it sends
      nothing exactly when no cell changed, and otherwise starts with an
      UNREVEAL and has revealed at least one cell. */
  lemma {:induction false} RevealTargetsAdvance(cells: seq<Cell>, ts: seq<Coord>)
    ensures Advances(cells, RevealTargets(cells, ts).0)
    ensures RevealTargets(cells, ts).1 == [] ==> RevealTargets(cells, ts).0 == cells
    ensures RevealTargets(cells, ts).1 != [] ==>
      RevealTargets(cells, ts).1[0].Unreveal? && Hidden(RevealTargets(cells, ts).0) < Hidden(cells)
    decreases |ts|
  {
    if ts != [] {
      RevealTargetsAdvance(cells, ts[..|ts| - 1]);
      var (cs, sent) := RevealTargets(cells, ts[..|ts| - 1]);
      match FindCell(cs, ts[|ts| - 1])
      case None =>
      case Some(k) =>
        CountStateUpdate(cs, k, Receive(cs[k], Reveal).0, Unrevealed);
    }
  }

  lemma {:induction false} RevealFirstAdvance(cells: seq<Cell>, n: nat)
    requires n <= |cells|
    ensures Advances(cells, RevealFirst(cells, n).0)
    ensures RevealFirst(cells, n).1 == [] ==> RevealFirst(cells, n).0 == cells
    ensures RevealFirst(cells, n).1 != [] ==> Hidden(RevealFirst(cells, n).0) < Hidden(cells)
  {
    if n > 0 {
      RevealFirstAdvance(cells, n - 1);
      var (cs, sent) := RevealFirst(cells, n - 1);
      CountStateUpdate(cs, n - 1, Receive(cs[n - 1], Reveal).0, Unrevealed);
    }
  }

  /** Handling a message either reveals some cell or shrinks the worklist. */
  lemma StepShrinks(cells: seq<Cell>, bombs: seq<Coord>, status: Status, m: GameEvent)
    ensures Advances(cells, Step(cells, bombs, status, m).cells)
    ensures Hidden(Step(cells, bombs, status, m).cells) < Hidden(cells) ||
      (Step(cells, bombs, status, m).cells == cells &&
       Weight(Step(cells, bombs, status, m).sent) < Weight([m]))
  {
    match m
    case RevealEmpties(at) => RevealTargetsAdvance(cells, Neighbors(at, ROWS, COLS));
    case RevealNeighbors(at) => RevealTargetsAdvance(cells, Neighbors(at, ROWS, COLS));
    case Explode(_) => RevealFirstAdvance(cells, |cells|);
    case _ =>
  }

  /** Draining the worklist: the cells and the game state once every message,
      and every message sent while handling them, has been handled. The
      cascade terminates: each message either reveals a cell or shrinks the
      worklist's weight. */
  function Run(cells: seq<Cell>, bombs: seq<Coord>, status: Status, queue: seq<GameEvent>): (r: (seq<Cell>, Status))
    ensures Advances(cells, r.0)
    decreases Hidden(cells), Weight(queue)
  {
    if queue == [] then (cells, status)
    else
      var r := Step(cells, bombs, status, queue[0]);
      StepShrinks(cells, bombs, status, queue[0]);
      WeightAppend(queue[1..], r.sent);
      assert Weight(queue) == Weight([queue[0]]) + Weight(queue[1..]);
      Run(r.cells, bombs, r.status, queue[1..] + r.sent)
  }

  /** A player's CLICK or TOGGLE_FLAG on cell k, with everything it causes. */
  function AfterUserEvent(cells: seq<Cell>, bombs: seq<Coord>, status: Status, k: nat, e: CellEvent): (seq<Cell>, Status)
    requires k < |cells|
  {
    var (c, out) := Receive(cells[k], e);
    Run(cells[k := c], bombs, status, out)
  }

  // ---------------------------------------------------------------------
  // The board fillField lays out
  // ---------------------------------------------------------------------

  lemma {:induction false} CountBombsCard(ns: seq<Coord>, bombs: seq<Coord>)
    requires Distinct(ns)
    ensures CountBombs(ns, bombs) == |Elements(ns) * Elements(bombs)|
  {
    if ns != [] {
      var init, x := ns[..|ns| - 1], ns[|ns| - 1];
      DistinctSnoc(ns);
      CountBombsCard(init, bombs);
      CardStep(Elements(init), Elements(bombs), x);
    }
  }

  lemma CardStep<T>(a: set<T>, b: set<T>, x: T)
    requires x !in a
    ensures |(a + {x}) * b| == |a * b| + (if x in b then 1 else 0)
  {
    if x in b {
      assert (a + {x}) * b == a * b + {x};
    } else {
      assert (a + {x}) * b == a * b;
    }
  }

  /** fillField's values: 'X' exactly on a bomb, and otherwise the number of
      bombs touching the cell, which is at most 8. */
  lemma FieldValue(bombs: seq<Coord>, c: Coord)
    requires forall b <- bombs :: IsInLimits(b, ROWS, COLS)
    ensures ValueAt(bombs, c) == Mine <==> c in bombs
    ensures c !in bombs ==> ValueAt(bombs, c).n == |set b | b in bombs && Touching(c, b)| <= 8
  {
    var ns := Neighbors(c, ROWS, COLS);
    NeighborsOrdered(c, ROWS, COLS);
    CountBombsCard(ns, bombs);
    forall b ensures b in Elements(ns) * Elements(bombs) <==> b in bombs && Touching(c, b) {
      NeighborsExactly(c, ROWS, COLS, b);
    }
    assert Elements(ns) * Elements(bombs) == set b | b in bombs && Touching(c, b);
    DistinctCard(ns);
    NeighborsCount(c, ROWS, COLS);
    SubsetCard(Elements(ns) * Elements(bombs), Elements(ns));
  }

  /** A zero is never next to a bomb. */
  lemma {:induction false} CountBombsZero(ns: seq<Coord>, bombs: seq<Coord>)
    ensures CountBombs(ns, bombs) == 0 <==> forall n <- ns :: n !in bombs
  {
    if ns != [] {
      CountBombsZero(ns[..|ns| - 1], bombs);
      assert ns == ns[..|ns| - 1] + [ns[|ns| - 1]];
    }
  }

  /** fillField lays out a well-formed board: the 7 bombs getNRandomCoords
      placed, all different and on the board, and every cell in place. */
  lemma FieldWellFormed(draws: seq<Coord>)
    requires forall d <- draws :: IsInLimits(d, ROWS, COLS)
    requires RandomCoords(BOMBS, draws).Some?
    ensures WellFormed(Field(RandomCoords(BOMBS, draws).value), RandomCoords(BOMBS, draws).value)
    ensures Live(Field(RandomCoords(BOMBS, draws).value), RandomCoords(BOMBS, draws).value)
  {
    RandomCoordsValid(BOMBS, ROWS, COLS, draws);
    var cells := Field(RandomCoords(BOMBS, draws).value);
    assert cells[0] in cells;
  }

  // ---------------------------------------------------------------------
  // What revealEmpties, revealNeighbors and explode do
  // ---------------------------------------------------------------------

  /** On a laid-out board, find by id finds the cell at an on-board
      coordinate and nothing for an off-board one. */
  lemma FindCellLaid(cells: seq<Cell>, c: Coord)
    requires Laid(cells)
    ensures FindCell(cells, c) == if IsInLimits(c, ROWS, COLS) then Some(Index(c)) else None
  {
    PosIndex();
    if IsInLimits(c, ROWS, COLS) {
      assert cells[Index(c)].coords == c;
    }
  }

  lemma {:induction false} RevealTargetsSpec(cells: seq<Cell>, ts: seq<Coord>)
    requires Laid(cells) && Distinct(ts) && forall t <- ts :: IsInLimits(t, ROWS, COLS)
    ensures forall k :: 0 <= k < |cells| ==>
      RevealTargets(cells, ts).0[k] == if Pos(k) in ts then Receive(cells[k], Reveal).0 else cells[k]
    ensures forall m :: m in RevealTargets(cells, ts).1 <==>
      exists k :: 0 <= k < |cells| && Pos(k) in ts && m in Receive(cells[k], Reveal).1
    decreases |ts|
  {
    if ts != [] {
      var init, t := ts[..|ts| - 1], ts[|ts| - 1];
      assert forall x :: x in ts <==> x in init || x == t;
      assert t !in init;
      RevealTargetsSpec(cells, init);
      RevealTargetsAdvance(cells, init);
      var (cs, sent) := RevealTargets(cells, init);
      FindCellLaid(cs, t);
      IndexAt(t);
      var k0 := Index(t);
      assert cs[k0] == cells[k0];
      assert RevealTargets(cells, ts) == (cs[k0 := Receive(cells[k0], Reveal).0], sent + Receive(cells[k0], Reveal).1);
      forall k | 0 <= k < |cells|
        ensures RevealTargets(cells, ts).0[k] == if Pos(k) in ts then Receive(cells[k], Reveal).0 else cells[k]
      {
        PosAt(k);
      }
      forall m ensures m in RevealTargets(cells, ts).1 <==>
        exists k :: 0 <= k < |cells| && Pos(k) in ts && m in Receive(cells[k], Reveal).1
      {
        if m in Receive(cells[k0], Reveal).1 {
          assert 0 <= k0 < |cells| && Pos(k0) in ts;
        }
      }
    }
  }

  /** revealEmpties and revealNeighbors send REVEAL to exactly the cells
      touching the sender, never to the sender itself, and pass on what those
      cells answer. */
  lemma RevealAroundSpec(cells: seq<Cell>, at: Coord)
    requires Laid(cells)
    ensures forall k :: 0 <= k < |cells| ==>
      RevealTargets(cells, Neighbors(at, ROWS, COLS)).0[k] ==
        if Touching(at, Pos(k)) then Receive(cells[k], Reveal).0 else cells[k]
    ensures forall m :: m in RevealTargets(cells, Neighbors(at, ROWS, COLS)).1 <==>
      exists k :: 0 <= k < |cells| && Touching(at, Pos(k)) && m in Receive(cells[k], Reveal).1
  {
    var ns := Neighbors(at, ROWS, COLS);
    NeighborsOrdered(at, ROWS, COLS);
    forall n | n in ns ensures IsInLimits(n, ROWS, COLS) {
      NeighborsExactly(at, ROWS, COLS, n);
    }
    RevealTargetsSpec(cells, ns);
    PosIndex();
    forall k | 0 <= k < |cells| ensures Pos(k) in ns <==> Touching(at, Pos(k)) {
      NeighborsExactly(at, ROWS, COLS, Pos(k));
    }
  }

  /** explode sends REVEAL to every cell in turn and passes on the answers. */
  lemma {:induction false} RevealFirstSpec(cells: seq<Cell>, n: nat)
    requires n <= |cells|
    ensures forall k :: 0 <= k < |cells| ==>
      RevealFirst(cells, n).0[k] == if k < n then Receive(cells[k], Reveal).0 else cells[k]
    ensures forall m :: m in RevealFirst(cells, n).1 <==>
      exists k :: 0 <= k < n && m in Receive(cells[k], Reveal).1
  {
    if n > 0 {
      RevealFirstSpec(cells, n - 1);
      var (cs, sent) := RevealFirst(cells, n - 1);
      var (c, out) := Receive(cells[n - 1], Reveal);
      assert cs[n - 1] == cells[n - 1];
      assert RevealFirst(cells, n) == (cs[n - 1 := c], sent + out);
      forall m ensures m in sent + out <==> exists k :: 0 <= k < n && m in Receive(cells[k], Reveal).1
      {
        assert m in sent + out <==> m in sent || m in out;
        if m in out {
          assert 0 <= n - 1 < n;
        }
      }
    }
  }

  // ---------------------------------------------------------------------
  // Winning and losing
  // ---------------------------------------------------------------------

  /** Some mine has been revealed. */
  ghost predicate MineShown(cells: seq<Cell>) {
    exists k :: 0 <= k < |cells| && cells[k].value == Mine && cells[k].state == Revealed
  }

  /** A game that can still be won or lost: no mine shown, no win due. */
  ghost predicate Live(cells: seq<Cell>, bombs: seq<Coord>) {
    !MineShown(cells) && !CheckWin(cells, bombs)
  }

  /** What the game should say about these cells: lost once a mine is
      revealed, otherwise won once checkWin holds, otherwise playing. */
  ghost function Verdict(cells: seq<Cell>, bombs: seq<Coord>): Status {
    if MineShown(cells) then Lost else if CheckWin(cells, bombs) then Won else Playing
  }

  /** A win needs every bomb flagged, so no mine can be showing. */
  lemma WinHidesMines(cells: seq<Cell>, bombs: seq<Coord>)
    requires WellFormed(cells, bombs) && CheckWin(cells, bombs)
    ensures !MineShown(cells)
  {
    if MineShown(cells) {
      var k :| 0 <= k < |cells| && cells[k].value == Mine && cells[k].state == Revealed;
      assert cells[k].coords in bombs;
      MineNotWon(cells, bombs, k);
    }
  }

  /** The win check needs a flagged cell on every bomb, and the only cell on
      a bomb's coordinate is the bomb's own. */
  lemma MineNotWon(cells: seq<Cell>, bombs: seq<Coord>, k: nat)
    requires Laid(cells) && k < |cells| && cells[k].coords in bombs && cells[k].state != Flagged
    ensures !CheckWin(cells, bombs)
  {
    if CheckWin(cells, bombs) {
      var c :| c in cells && c.state == Flagged && c.coords == cells[k].coords;
      var j :| 0 <= j < |cells| && cells[j] == c;
      PosAt(j);
      PosAt(k);
    }
  }

  predicate HasUnreveal(q: seq<GameEvent>) {
    exists m <- q :: m.Unreveal?
  }

  predicate HasExplode(q: seq<GameEvent>) {
    exists m <- q :: m.Explode?
  }

  /** Every win or loss the cells call for has been declared or is on its
      way in the worklist: a WIN only when checkWin holds, an UNREVEAL or a
      WIN queued while playing and checkWin holds, an EXPLODE queued while
      playing and a mine shows, and no WIN after a loss. */
  ghost predicate Pending(cells: seq<Cell>, bombs: seq<Coord>, status: Status, q: seq<GameEvent>) {
    && ((Win in q || status == Won) ==> CheckWin(cells, bombs))
    && (status == Playing && CheckWin(cells, bombs) ==> Win in q || HasUnreveal(q))
    && ((HasExplode(q) || status == Lost) ==> MineShown(cells))
    && (status == Lost ==> Win !in q)
    && (status == Playing && MineShown(cells) ==> HasExplode(q))
  }

  /** What sending REVEAL to targets does to the win and loss conditions:
      the cells never answer WIN, EXPLODE is sent only by revealing a mine,
      and a mine is revealed only by sending EXPLODE. */
  lemma {:induction false} RevealTargetsShows(cells: seq<Cell>, ts: seq<Coord>)
    ensures Win !in RevealTargets(cells, ts).1
    ensures HasExplode(RevealTargets(cells, ts).1) ==> MineShown(RevealTargets(cells, ts).0)
    ensures MineShown(RevealTargets(cells, ts).0) && !MineShown(cells) ==> HasExplode(RevealTargets(cells, ts).1)
    decreases |ts|
  {
    if ts != [] {
      RevealTargetsShows(cells, ts[..|ts| - 1]);
      var (cs, sent) := RevealTargets(cells, ts[..|ts| - 1]);
      match FindCell(cs, ts[|ts| - 1])
      case None =>
      case Some(k) =>
        var (c, out) := Receive(cs[k], Reveal);
        ShowsOne(cs, sent, k, c, out);
    }
  }

  /** One REVEAL to cell k, whose answer is appended to what was sent. */
  lemma ShowsOne(cs: seq<Cell>, sent: seq<GameEvent>, k: nat, c: Cell, out: seq<GameEvent>)
    requires k < |cs| && (c, out) == Receive(cs[k], Reveal)
    requires HasExplode(sent) ==> MineShown(cs)
    ensures HasExplode(sent + out) ==> MineShown(cs[k := c])
    ensures MineShown(cs[k := c]) && !MineShown(cs) ==> HasExplode(out)
  {
    if MineShown(cs) {
      var j :| 0 <= j < |cs| && cs[j].value == Mine && cs[j].state == Revealed;
      assert cs[k := c][j].value == Mine && cs[k := c][j].state == Revealed;
    }
    if HasExplode(out) {
      assert cs[k := c][k].value == Mine && cs[k := c][k].state == Revealed;
    }
    assert forall x :: x in sent + out <==> x in sent || x in out;
    if MineShown(cs[k := c]) && !MineShown(cs) {
      var j :| 0 <= j < |cs| && cs[k := c][j].value == Mine && cs[k := c][j].state == Revealed;
      assert j == k;
      assert Explode(cs[k].coords) in out;
    }
  }

  lemma RevealAroundPending(cells: seq<Cell>, bombs: seq<Coord>, q: seq<GameEvent>, at: Coord)
    requires q != [] && Pending(cells, bombs, Playing, q)
    requires q[0] == RevealEmpties(at) || q[0] == RevealNeighbors(at)
    ensures var r := RevealTargets(cells, Neighbors(at, ROWS, COLS));
      Pending(r.0, bombs, Playing, q[1..] + r.1)
  {
    var (cs, sent) := RevealTargets(cells, Neighbors(at, ROWS, COLS));
    var q' := q[1..] + sent;
    RevealTargetsShows(cells, Neighbors(at, ROWS, COLS));
    RevealTargetsAdvance(cells, Neighbors(at, ROWS, COLS));
    assert forall x :: x in q <==> x == q[0] || x in q[1..];
    assert forall x :: x in q' <==> x in q[1..] || x in sent;
    if Win in q' {
      CountStateZero(cells, Unrevealed);
    }
    if sent != [] {
      assert sent[0] in q';
    }
    if MineShown(cells) {
      var k :| 0 <= k < |cells| && cells[k].value == Mine && cells[k].state == Revealed;
      assert cs[k].state == Revealed;
      var e :| e in q && e.Explode?;
      assert e in q[1..];
    }
  }

  lemma ExplodePending(cells: seq<Cell>, bombs: seq<Coord>, q: seq<GameEvent>)
    requires WellFormed(cells, bombs) && q != [] && q[0].Explode? && Pending(cells, bombs, Playing, q)
    ensures var r := RevealFirst(cells, |cells|); Pending(r.0, bombs, Lost, q[1..] + r.1)
  {
    var (cs, sent) := RevealFirst(cells, |cells|);
    assert MineShown(cells);
    if CheckWin(cells, bombs) {
      WinHidesMines(cells, bombs);
    }
    RevealFirstSpec(cells, |cells|);
    RevealFirstAdvance(cells, |cells|);
    var k :| 0 <= k < |cells| && cells[k].value == Mine && cells[k].state == Revealed;
    assert cs[k].state == Revealed;
    assert Win !in sent;
    assert forall x :: x in q[1..] + sent <==> x in q[1..] || x in sent;
  }

  /** A message that leaves the cells alone (WIN, FLAG, UNFLAG, UNREVEAL,
      or any message once the game is over) keeps every due win or loss
      accounted for. */
  lemma QuietPending(cells: seq<Cell>, bombs: seq<Coord>, status: Status, q: seq<GameEvent>)
    requires q != [] && Pending(cells, bombs, status, q)
    requires status != Playing || q[0].Win? || q[0].Flag? || q[0].Unflag? || q[0].Unreveal?
    ensures var r := Step(cells, bombs, status, q[0]); Pending(r.cells, bombs, r.status, q[1..] + r.sent)
  {
    var r := Step(cells, bombs, status, q[0]);
    assert forall x :: x in q <==> x == q[0] || x in q[1..];
    if q[0] == Win {
      assert r == Reaction(cells, Won, []);
      assert q[1..] + r.sent == q[1..];
    } else if q[0].Unreveal? && status == Playing {
      assert r.cells == cells && r.status == Playing && r.sent == if CheckWin(cells, bombs) then [Win] else [];
      assert forall x :: x in q[1..] + r.sent <==> x in q[1..] || x in r.sent;
    } else {
      assert r == Reaction(cells, status, []);
      assert q[1..] + r.sent == q[1..];
    }
    if HasExplode(q) {
      var m :| m in q && m.Explode?;
      if status == Playing {
        assert m in q[1..];
      }
    }
  }

  /** Handling one message keeps every due win or loss accounted for. */
  lemma StepPending(cells: seq<Cell>, bombs: seq<Coord>, status: Status, q: seq<GameEvent>)
    requires WellFormed(cells, bombs) && q != [] && Pending(cells, bombs, status, q)
    ensures var r := Step(cells, bombs, status, q[0]); Pending(r.cells, bombs, r.status, q[1..] + r.sent)
  {
    if status != Playing {
      QuietPending(cells, bombs, status, q);
    } else {
      match q[0]
      case RevealEmpties(at) =>
        RevealAroundPending(cells, bombs, q, at);
      case RevealNeighbors(at) =>
        RevealAroundPending(cells, bombs, q, at);
      case Explode(_) =>
        ExplodePending(cells, bombs, q);
      case _ =>
        QuietPending(cells, bombs, status, q);
    }
  }

  /** Draining a worklist that accounts for every due win or loss ends in
      the verdict of the final cells. */
  lemma {:induction false} RunVerdict(cells: seq<Cell>, bombs: seq<Coord>, status: Status, q: seq<GameEvent>)
    requires WellFormed(cells, bombs) && Pending(cells, bombs, status, q)
    ensures Run(cells, bombs, status, q).1 == Verdict(Run(cells, bombs, status, q).0, bombs)
    decreases Hidden(cells), Weight(q)
  {
    if q == [] {
      if CheckWin(cells, bombs) {
        WinHidesMines(cells, bombs);
      }
    } else {
      var r := Step(cells, bombs, status, q[0]);
      StepShrinks(cells, bombs, status, q[0]);
      WeightAppend(q[1..], r.sent);
      assert Weight(q) == Weight([q[0]]) + Weight(q[1..]);
      StepPending(cells, bombs, status, q);
      AdvancesWellFormed(cells, r.cells, bombs);
      RunVerdict(r.cells, bombs, r.status, q[1..] + r.sent);
    }
  }

  /** A player's event and its cascade change only cell states, so the board
      stays as fillField laid it out. */
  lemma UserEventKeepsBoard(cells: seq<Cell>, bombs: seq<Coord>, status: Status, k: nat, e: CellEvent)
    requires WellFormed(cells, bombs) && k < |cells|
    ensures WellFormed(AfterUserEvent(cells, bombs, status, k, e).0, bombs)
  {
    var mid := cells[k := Receive(cells[k], e).0];
    assert WellFormed(mid, bombs);
    AdvancesWellFormed(mid, AfterUserEvent(cells, bombs, status, k, e).0, bombs);
  }

  /** An event to a cell that is not unrevealed leaves the cells as they
      were, or makes that cell unrevealed again. */
  lemma UnchangedUnlessUnrevealed(cells: seq<Cell>, k: nat, e: CellEvent)
    requires k < |cells|
    ensures cells[k].state != Unrevealed ==>
      cells[k := Receive(cells[k], e).0] == cells || Receive(cells[k], e).0.state == Unrevealed
  {
    if cells[k].state != Unrevealed && Receive(cells[k], e).0.state != Unrevealed {
      assert Receive(cells[k], e).0 == cells[k];
    }
  }

  /** A player's event that makes checkWin hold in a game where it did not
      took the cell out of unrevealed, so it sent UNREVEAL. */
  lemma UserEventWin(cells: seq<Cell>, bombs: seq<Coord>, k: nat, e: CellEvent)
    requires k < |cells| && !CheckWin(cells, bombs)
    requires CheckWin(cells[k := Receive(cells[k], e).0], bombs)
    ensures HasUnreveal(Receive(cells[k], e).1)
  {
    var (c, out) := Receive(cells[k], e);
    assert cells[k := c][k] in cells[k := c];
    UnchangedUnlessUnrevealed(cells, k, e);
    UnrevealOnExit(cells[k], e);
    assert Unreveal(cells[k].coords) in out;
  }

  /** A player's event reveals a mine exactly when it sends EXPLODE. */
  lemma UserEventMine(cells: seq<Cell>, k: nat, e: CellEvent)
    requires k < |cells| && !MineShown(cells)
    ensures HasExplode(Receive(cells[k], e).1) <==> MineShown(cells[k := Receive(cells[k], e).0])
  {
    var (c, out) := Receive(cells[k], e);
    var cs := cells[k := c];
    if HasExplode(out) {
      assert cs[k].value == Mine && cs[k].state == Revealed;
    }
    if MineShown(cs) {
      var j :| 0 <= j < |cs| && cs[j].value == Mine && cs[j].state == Revealed;
      assert j == k;
      assert Explode(cells[k].coords) in out;
    }
  }

  /** A player's event on a live game starts a worklist that accounts for
      every due win or loss. */
  lemma UserEventPending(cells: seq<Cell>, bombs: seq<Coord>, k: nat, e: CellEvent)
    requires WellFormed(cells, bombs) && k < |cells| && Live(cells, bombs)
    ensures Pending(cells[k := Receive(cells[k], e).0], bombs, Playing, Receive(cells[k], e).1)
  {
    if CheckWin(cells[k := Receive(cells[k], e).0], bombs) {
      UserEventWin(cells, bombs, k, e);
    }
    UserEventMine(cells, k, e);
  }

  /** The exact win and loss conditions: after a player's CLICK or
      TOGGLE_FLAG in a live game, and everything it causes, the game is lost
      exactly when a mine is revealed, otherwise won exactly when checkWin
      holds, and otherwise still being played. */
  lemma UserEventVerdict(cells: seq<Cell>, bombs: seq<Coord>, k: nat, e: CellEvent)
    requires WellFormed(cells, bombs) && k < |cells| && Live(cells, bombs)
    ensures AfterUserEvent(cells, bombs, Playing, k, e).1 == Verdict(AfterUserEvent(cells, bombs, Playing, k, e).0, bombs)
  {
    UserEventPending(cells, bombs, k, e);
    RunVerdict(cells[k := Receive(cells[k], e).0], bombs, Playing, Receive(cells[k], e).1);
  }

  lemma {:induction false} RunSettled(cells: seq<Cell>, bombs: seq<Coord>, status: Status, q: seq<GameEvent>)
    requires status == Won || (status == Lost && Win !in q)
    ensures Run(cells, bombs, status, q) == (cells, status)
    decreases |q|
  {
    if q != [] {
      assert Step(cells, bombs, status, q[0]) == Reaction(cells, status, []);
      assert q[1..] + [] == q[1..];
      assert forall x :: x in q[1..] ==> x in q;
      RunSettled(cells, bombs, status, q[1..]);
    }
  }

  /** won and lost are left only by RESTART: there, a player's event changes
      the one cell it is sent to and the game ignores what that cell says. */
  lemma GameOverSticks(cells: seq<Cell>, bombs: seq<Coord>, status: Status, k: nat, e: CellEvent)
    requires status != Playing && k < |cells|
    ensures AfterUserEvent(cells, bombs, status, k, e) == (cells[k := Receive(cells[k], e).0], status)
  {
    RunSettled(cells[k := Receive(cells[k], e).0], bombs, status, Receive(cells[k], e).1);
  }

  // ---------------------------------------------------------------------
  // Clicks and flags
  // ---------------------------------------------------------------------

  /** EXPLODE while playing: every cell is sent REVEAL, none of them answers
      WIN, and the game is lost for good. */
  lemma ExplodeRun(cells: seq<Cell>, bombs: seq<Coord>, s: Coord)
    ensures Win !in RevealFirst(cells, |cells|).1
    ensures Run(cells, bombs, Playing, [Explode(s)]) == (RevealFirst(cells, |cells|).0, Lost)
  {
    var (cs, sent) := RevealFirst(cells, |cells|);
    RevealFirstSpec(cells, |cells|);
    assert Win !in sent;
    assert [Explode(s)][1..] + sent == sent;
    RunSettled(cs, bombs, Lost, sent);
  }

  /** CLICK on an unrevealed mine: the cell turns revealed and answers
      UNREVEAL, which cannot win, then EXPLODE. */
  lemma MineClickExplodes(cells: seq<Cell>, bombs: seq<Coord>, k: nat)
    requires Laid(cells) && k < |cells| && cells[k].coords in bombs
    requires cells[k].state == Unrevealed && cells[k].value == Mine
    ensures AfterUserEvent(cells, bombs, Playing, k, Click) ==
      Run(cells[k := cells[k].(state := Revealed)], bombs, Playing, [Explode(cells[k].coords)])
  {
    var s := cells[k].coords;
    var c1 := cells[k := cells[k].(state := Revealed)];
    assert [Unreveal(s)] + [Explode(s)] == [Unreveal(s), Explode(s)];
    assert Receive(cells[k], Click) == (c1[k], [Unreveal(s), Explode(s)]);
    MineNotWon(c1, bombs, k);
    assert Step(c1, bombs, Playing, Unreveal(s)) == Reaction(c1, Playing, []);
    assert [Unreveal(s), Explode(s)][1..] + [] == [Explode(s)];
  }

  /** CLICK on an unrevealed mine: EXPLODE loses the game and reveals every
      cell that is not flagged. */
  lemma ClickOnMine(cells: seq<Cell>, bombs: seq<Coord>, k: nat)
    requires WellFormed(cells, bombs) && k < |cells|
    requires cells[k].state == Unrevealed && cells[k].value == Mine
    ensures AfterUserEvent(cells, bombs, Playing, k, Click).1 == Lost
    ensures forall j :: 0 <= j < |cells| ==>
      AfterUserEvent(cells, bombs, Playing, k, Click).0[j].state ==
        if cells[j].state == Flagged then Flagged else Revealed
  {
    var c1 := cells[k := cells[k].(state := Revealed)];
    assert cells[k].value == ValueAt(bombs, Pos(k));
    MineClickExplodes(cells, bombs, k);
    ExplodeRun(c1, bombs, cells[k].coords);
    RevealFirstSpec(c1, |c1|);
  }

  /** CLICK on an unrevealed cell with 1 to 8 bomb neighbours reveals that
      cell only; the game is won if that was the last unrevealed cell and
      every bomb is flagged. */
  lemma ClickOnNumber(cells: seq<Cell>, bombs: seq<Coord>, k: nat)
    requires k < |cells|
    requires cells[k].state == Unrevealed && cells[k].value.Count? && cells[k].value.n != 0
    ensures var c1 := cells[k := cells[k].(state := Revealed)];
      AfterUserEvent(cells, bombs, Playing, k, Click) == (c1, if CheckWin(c1, bombs) then Won else Playing)
  {
    var s := cells[k].coords;
    var c1 := cells[k := cells[k].(state := Revealed)];
    assert [Unreveal(s)] + [] == [Unreveal(s)];
    assert Receive(cells[k], Click) == (c1[k], [Unreveal(s)]);
    assert AfterUserEvent(cells, bombs, Playing, k, Click) == Run(c1, bombs, Playing, [Unreveal(s)]);
    if CheckWin(c1, bombs) {
      assert Step(c1, bombs, Playing, Unreveal(s)) == Reaction(c1, Playing, [Win]);
      assert [Unreveal(s)][1..] + [Win] == [Win];
      assert Run(c1, bombs, Playing, [Unreveal(s)]) == Run(c1, bombs, Playing, [Win]);
      assert [Win][1..] + [] == [];
      assert Run(c1, bombs, Playing, [Win]) == Run(c1, bombs, Won, []);
    } else {
      assert Step(c1, bombs, Playing, Unreveal(s)) == Reaction(c1, Playing, []);
      assert [Unreveal(s)][1..] + [] == [];
      assert Run(c1, bombs, Playing, [Unreveal(s)]) == Run(c1, bombs, Playing, []);
    }
  }

  /** CLICK on a revealed cell: REVEAL_NEIGHBORS reveals every unrevealed
      neighbour however many flags surround the cell; flagged neighbours
      stay flagged. */
  lemma ClickOnRevealed(cells: seq<Cell>, bombs: seq<Coord>, k: nat)
    requires WellFormed(cells, bombs) && k < |cells| && cells[k].state == Revealed
    ensures forall j :: 0 <= j < |cells| && Touching(Pos(k), Pos(j)) ==>
      AfterUserEvent(cells, bombs, Playing, k, Click).0[j].state ==
        if cells[j].state == Flagged then Flagged else Revealed
  {
    var q := [RevealNeighbors(Pos(k))];
    assert Receive(cells[k], Click) == (cells[k], q);
    assert cells[k := cells[k]] == cells;
    var r := Step(cells, bombs, Playing, q[0]);
    assert q[1..] + r.sent == r.sent;
    var after := Run(r.cells, bombs, r.status, r.sent);
    assert AfterUserEvent(cells, bombs, Playing, k, Click) == after;
    RevealAroundSpec(cells, Pos(k));
    forall j | 0 <= j < |cells| && Touching(Pos(k), Pos(j))
      ensures after.0[j].state == if cells[j].state == Flagged then Flagged else Revealed
    {
      assert r.cells[j] == Receive(cells[j], Reveal).0;
    }
  }

  /** TOGGLE_FLAG flags an unrevealed cell or unflags a flagged one, and
      nothing else changes; flagging the last unrevealed cell wins when every
      bomb is then flagged. */
  lemma ToggleFlagOutcome(cells: seq<Cell>, bombs: seq<Coord>, k: nat)
    requires k < |cells| && Live(cells, bombs)
    ensures var c1 := cells[k := Receive(cells[k], ToggleFlag).0];
      AfterUserEvent(cells, bombs, Playing, k, ToggleFlag) == (c1, if CheckWin(c1, bombs) then Won else Playing)
  {
    var s := cells[k].coords;
    var c1 := cells[k := Receive(cells[k], ToggleFlag).0];
    match cells[k].state
    case Unrevealed =>
      var w: seq<GameEvent> := if CheckWin(c1, bombs) then [Win] else [];
      assert Step(c1, bombs, Playing, Unreveal(s)) == Reaction(c1, Playing, w);
      assert [Unreveal(s), Flag(s)][1..] + w == [Flag(s)] + w;
      assert Step(c1, bombs, Playing, Flag(s)) == Reaction(c1, Playing, []);
      assert ([Flag(s)] + w)[1..] + [] == w;
      assert Run(c1, bombs, Playing, [Unreveal(s), Flag(s)]) == Run(c1, bombs, Playing, [Flag(s)] + w);
      assert Run(c1, bombs, Playing, [Flag(s)] + w) == Run(c1, bombs, Playing, w);
      if w != [] {
        assert w[1..] + [] == [];
        assert Run(c1, bombs, Playing, w) == Run(c1, bombs, Won, []);
      }
    case Flagged =>
      assert c1[k] in c1;
      assert !CheckWin(c1, bombs);
      assert Step(c1, bombs, Playing, Unflag(s)) == Reaction(c1, Playing, []);
      assert [Unflag(s)][1..] + [] == [];
      assert Run(c1, bombs, Playing, [Unflag(s)]) == Run(c1, bombs, Playing, []);
    case Revealed =>
      assert c1 == cells;
  }

  // ---------------------------------------------------------------------
  // The flood
  // ---------------------------------------------------------------------

  /** A path of the flood: on the board, through cells that were unrevealed,
      each position touching the one before, every position but the last
      holding a 0. */
  ghost predicate FloodPath(cells: seq<Cell>, p: seq<Coord>) {
    && |cells| == ROWS * COLS && |p| >= 1
    && (forall i :: 0 <= i < |p| ==> IsInLimits(p[i], ROWS, COLS) && cells[Index(p[i])].state == Unrevealed)
    && (forall i :: 0 <= i < |p| - 1 ==> cells[Index(p[i])].value == Count(0) && Touching(p[i], p[i + 1]))
  }

  /** x is reached by the flood started at s: the unrevealed 0-region
      connected to s, together with the unrevealed cells touching it. */
  ghost predicate InFlood(cells: seq<Cell>, s: Coord, x: Coord) {
    exists p :: FloodPath(cells, p) && p[0] == s && p[|p| - 1] == x
  }

  lemma FloodExtend(cells: seq<Cell>, s: Coord, x: Coord, y: Coord)
    requires |cells| == ROWS * COLS && IsInLimits(x, ROWS, COLS) && IsInLimits(y, ROWS, COLS)
    requires InFlood(cells, s, x) && cells[Index(x)].value == Count(0)
    requires Touching(x, y) && cells[Index(y)].state == Unrevealed
    ensures InFlood(cells, s, y)
  {
    var p :| FloodPath(cells, p) && p[0] == s && p[|p| - 1] == x;
    assert FloodPath(cells, p + [y]);
  }

  /** Every neighbour of x is revealed or flagged. */
  ghost predicate Uncovered(cells: seq<Cell>, x: Coord) {
    forall j :: 0 <= j < |cells| && Touching(x, Pos(j)) ==> cells[j].state != Unrevealed
  }

  /** The invariant of a flood started at s on the board cells0: only cells
      of the flood have changed, s is revealed, the worklist holds only
      UNREVEAL, WIN and REVEAL_EMPTIES from 0-cells of the flood, and every
      0-cell the flood has revealed has its REVEAL_EMPTIES still queued or
      has all its neighbours uncovered. */
  ghost predicate Flooding(cells0: seq<Cell>, bombs: seq<Coord>, s: Coord,
                           cells: seq<Cell>, status: Status, q: seq<GameEvent>) {
    && WellFormed(cells0, bombs) && Advances(cells0, cells)
    && IsInLimits(s, ROWS, COLS) && cells[Index(s)].state == Revealed
    && status != Lost
    && ((status == Won || Win in q) ==> Hidden(cells) == 0)
    && (forall m <- q :: m.Unreveal? || m.Win? ||
          (m.RevealEmpties? && IsInLimits(m.at, ROWS, COLS) && InFlood(cells0, s, m.at) &&
           cells0[Index(m.at)].value == Count(0)))
    && (forall k :: 0 <= k < |cells| && cells[k].state != cells0[k].state ==> InFlood(cells0, s, Pos(k)))
    && (forall k ::
          (0 <= k < |cells| && cells[k].state == Revealed && cells0[k].state != Revealed && cells[k].value == Count(0))
          ==> (RevealEmpties(Pos(k)) in q || Uncovered(cells, Pos(k))))
  }

  /** A cell touching a 0 holds no mine: it answers REVEAL with nothing,
      with UNREVEAL alone, or, if it is a hidden 0, with UNREVEAL and
      REVEAL_EMPTIES. */
  lemma FloodNeighbor(bombs: seq<Coord>, cell: Cell, x: Coord, y: Coord)
    requires cell.coords == y && cell.value == ValueAt(bombs, y)
    requires ValueAt(bombs, x) == Count(0) && y in Neighbors(x, ROWS, COLS)
    ensures var out := Receive(cell, Reveal).1;
      out == [] || out == [Unreveal(y)] ||
      (out == [Unreveal(y), RevealEmpties(y)] && cell.state == Unrevealed && cell.value == Count(0))
  {
    ZeroNeighborSafe(bombs, x, y);
  }

  /** No neighbour of a 0 holds a mine. */
  lemma ZeroNeighborSafe(bombs: seq<Coord>, x: Coord, y: Coord)
    requires ValueAt(bombs, x) == Count(0) && y in Neighbors(x, ROWS, COLS)
    ensures ValueAt(bombs, y) != Mine
  {
    CountBombsZero(Neighbors(x, ROWS, COLS), bombs);
  }

  /** The cells touching a 0 of the flood answer REVEAL with UNREVEAL and
      with REVEAL_EMPTIES from 0-cells of the flood; they hold no mine. */
  lemma FloodSent(cells0: seq<Cell>, bombs: seq<Coord>, s: Coord, cells: seq<Cell>, x: Coord)
    requires WellFormed(cells0, bombs) && Advances(cells0, cells)
    requires IsInLimits(x, ROWS, COLS) && InFlood(cells0, s, x) && cells0[Index(x)].value == Count(0)
    ensures forall m <- RevealTargets(cells, Neighbors(x, ROWS, COLS)).1 ::
      m.Unreveal? || (m.RevealEmpties? && IsInLimits(m.at, ROWS, COLS) &&
        InFlood(cells0, s, m.at) && cells0[Index(m.at)].value == Count(0))
  {
    RevealAroundSpec(cells, x);
    forall m | m in RevealTargets(cells, Neighbors(x, ROWS, COLS)).1
      ensures m.Unreveal? || (m.RevealEmpties? && IsInLimits(m.at, ROWS, COLS) &&
        InFlood(cells0, s, m.at) && cells0[Index(m.at)].value == Count(0))
    {
      var j :| 0 <= j < |cells| && Touching(x, Pos(j)) && m in Receive(cells[j], Reveal).1;
      NeighborsExactly(x, ROWS, COLS, Pos(j));
      PosAt(j);
      IndexAt(x);
      assert cells0[Index(x)].value == ValueAt(bombs, x);
      assert cells[j].value == cells0[j].value == ValueAt(bombs, Pos(j));
      FloodNeighbor(bombs, cells[j], x, Pos(j));
      var out := Receive(cells[j], Reveal).1;
      if m.RevealEmpties? {
        assert out == [Unreveal(Pos(j)), RevealEmpties(Pos(j))] && m == out[1];
        FloodExtend(cells0, s, x, Pos(j));
        assert cells0[Index(m.at)].value == Count(0);
      } else {
        assert m == Unreveal(Pos(j));
      }
    }
  }

  /** Revealing around a 0 of the flood changes only cells of the flood. */
  lemma FloodChanged(cells0: seq<Cell>, s: Coord, cells: seq<Cell>, x: Coord)
    requires Laid(cells0) && Advances(cells0, cells)
    requires IsInLimits(x, ROWS, COLS) && InFlood(cells0, s, x) && cells0[Index(x)].value == Count(0)
    requires forall k :: 0 <= k < |cells| && cells[k].state != cells0[k].state ==> InFlood(cells0, s, Pos(k))
    ensures var cs := RevealTargets(cells, Neighbors(x, ROWS, COLS)).0;
      forall k :: 0 <= k < |cs| && cs[k].state != cells0[k].state ==> InFlood(cells0, s, Pos(k))
  {
    var cs := RevealTargets(cells, Neighbors(x, ROWS, COLS)).0;
    RevealAroundSpec(cells, x);
    forall k | 0 <= k < |cs| && cs[k].state != cells0[k].state
      ensures InFlood(cells0, s, Pos(k))
    {
      if cs[k] != cells[k] {
        PosAt(k);
        assert cells[k].state == Unrevealed;
        FloodExtend(cells0, s, x, Pos(k));
      }
    }
  }

  /** Revealing around x uncovers x, keeps uncovered cells uncovered, and
      every 0 it reveals sends its own REVEAL_EMPTIES. */
  lemma FloodAccounted(cells0: seq<Cell>, cells: seq<Cell>, q: seq<GameEvent>, x: Coord)
    requires Laid(cells0) && Advances(cells0, cells) && q != [] && q[0] == RevealEmpties(x)
    requires forall k ::
      (0 <= k < |cells| && cells[k].state == Revealed && cells0[k].state != Revealed && cells[k].value == Count(0))
      ==> (RevealEmpties(Pos(k)) in q || Uncovered(cells, Pos(k)))
    ensures var r := RevealTargets(cells, Neighbors(x, ROWS, COLS));
      forall k ::
        (0 <= k < |r.0| && r.0[k].state == Revealed && cells0[k].state != Revealed && r.0[k].value == Count(0))
        ==> (RevealEmpties(Pos(k)) in q[1..] + r.1 || Uncovered(r.0, Pos(k)))
  {
    var (cs, sent) := RevealTargets(cells, Neighbors(x, ROWS, COLS));
    RevealAroundSpec(cells, x);
    RevealTargetsAdvance(cells, Neighbors(x, ROWS, COLS));
    assert forall y :: y in q <==> y == q[0] || y in q[1..];
    forall k | 0 <= k < |cs| && cs[k].state == Revealed && cells0[k].state != Revealed &&
        cs[k].value == Count(0)
      ensures RevealEmpties(Pos(k)) in q[1..] + sent || Uncovered(cs, Pos(k))
    {
      if Pos(k) == x {
        assert Uncovered(cs, Pos(k));
      } else if cells[k].state == Revealed {
        if RevealEmpties(Pos(k)) in q {
          assert RevealEmpties(Pos(k)) in q[1..];
        } else {
          assert Uncovered(cs, Pos(k));
        }
      } else {
        assert cs[k] != cells[k];
        assert cs[k] == Receive(cells[k], Reveal).0 && Touching(x, Pos(k));
        assert cells[k].state == Unrevealed && cells[k].coords == Pos(k);
        assert RevealEmpties(Pos(k)) in Receive(cells[k], Reveal).1;
        assert RevealEmpties(Pos(k)) in sent;
      }
    }
  }

  /** REVEAL_EMPTIES from a 0-cell x of the flood, handled while playing. */
  lemma FloodReveal(cells0: seq<Cell>, bombs: seq<Coord>, s: Coord, cells: seq<Cell>, q: seq<GameEvent>, x: Coord)
    requires q != [] && q[0] == RevealEmpties(x) && Flooding(cells0, bombs, s, cells, Playing, q)
    ensures var r := RevealTargets(cells, Neighbors(x, ROWS, COLS));
      Flooding(cells0, bombs, s, r.0, Playing, q[1..] + r.1)
  {
    var (cs, sent) := RevealTargets(cells, Neighbors(x, ROWS, COLS));
    assert q[0] in q;
    RevealTargetsAdvance(cells, Neighbors(x, ROWS, COLS));
    FloodSent(cells0, bombs, s, cells, x);
    FloodChanged(cells0, s, cells, x);
    FloodAccounted(cells0, cells, q, x);
    assert forall y :: y in q[1..] + sent <==> y in q[1..] || y in sent;
    assert forall y :: y in q[1..] ==> y in q;
    if Win in q[1..] + sent {
      RevealTargetsShows(cells, Neighbors(x, ROWS, COLS));
      assert Win in q;
    }
  }

  /** A message that changes no cell keeps the flood invariant, provided a
      REVEAL_EMPTIES it drops comes when every cell is uncovered. */
  lemma FloodKeep(cells0: seq<Cell>, bombs: seq<Coord>, s: Coord, cells: seq<Cell>, status: Status,
                  q: seq<GameEvent>, status2: Status, sent: seq<GameEvent>)
    requires q != [] && Flooding(cells0, bombs, s, cells, status, q)
    requires q[0].RevealEmpties? ==> Hidden(cells) == 0
    requires status2 != Lost && (status2 == Won ==> Hidden(cells) == 0)
    requires sent == [] || (sent == [Win] && Hidden(cells) == 0)
    ensures Flooding(cells0, bombs, s, cells, status2, q[1..] + sent)
  {
    assert q[0] in q;
    assert forall y :: y in q[1..] + sent <==> y in q[1..] || y in sent;
    assert forall y :: y in q[1..] ==> y in q;
    if Hidden(cells) == 0 {
      CountStateZero(cells, Unrevealed);
      forall k | 0 <= k < |cells| ensures Uncovered(cells, Pos(k)) {
        forall j | 0 <= j < |cells| ensures cells[j].state != Unrevealed {
          assert cells[j] in cells;
        }
      }
    }
  }

  lemma FloodStep(cells0: seq<Cell>, bombs: seq<Coord>, s: Coord, cells: seq<Cell>, status: Status, q: seq<GameEvent>)
    requires q != [] && Flooding(cells0, bombs, s, cells, status, q)
    ensures var r := Step(cells, bombs, status, q[0]);
      Flooding(cells0, bombs, s, r.cells, r.status, q[1..] + r.sent)
  {
    var r := Step(cells, bombs, status, q[0]);
    assert q[0] in q;
    if q[0].RevealEmpties? && status == Playing {
      FloodReveal(cells0, bombs, s, cells, q, q[0].at);
    } else {
      if q[0].Unreveal? && status == Playing && CheckWin(cells, bombs) {
        CountStateZero(cells, Unrevealed);
      }
      FloodKeep(cells0, bombs, s, cells, status, q, r.status, r.sent);
    }
  }

  lemma {:induction false} FloodRun(cells0: seq<Cell>, bombs: seq<Coord>, s: Coord,
                                    cells: seq<Cell>, status: Status, q: seq<GameEvent>)
    requires Flooding(cells0, bombs, s, cells, status, q)
    ensures Flooding(cells0, bombs, s, Run(cells, bombs, status, q).0, Run(cells, bombs, status, q).1, [])
    decreases Hidden(cells), Weight(q)
  {
    if q != [] {
      var r := Step(cells, bombs, status, q[0]);
      StepShrinks(cells, bombs, status, q[0]);
      WeightAppend(q[1..], r.sent);
      assert Weight(q) == Weight([q[0]]) + Weight(q[1..]);
      FloodStep(cells0, bombs, s, cells, status, q);
      FloodRun(cells0, bombs, s, r.cells, r.status, q[1..] + r.sent);
    }
  }

  /** Once every 0 the flood has revealed has its neighbours uncovered,
      every cell of the flood is revealed. */
  lemma {:induction false} FloodPathRevealed(cells0: seq<Cell>, cells: seq<Cell>, s: Coord, p: seq<Coord>)
    requires Laid(cells0) && Advances(cells0, cells)
    requires IsInLimits(s, ROWS, COLS) && cells[Index(s)].state == Revealed
    requires forall k ::
      (0 <= k < |cells| && cells[k].state == Revealed && cells0[k].state != Revealed && cells[k].value == Count(0))
      ==> Uncovered(cells, Pos(k))
    requires FloodPath(cells0, p) && p[0] == s
    ensures cells[Index(p[|p| - 1])].state == Revealed
    decreases |p|
  {
    if |p| > 1 {
      var init := p[..|p| - 1];
      assert FloodPath(cells0, init);
      FloodPathRevealed(cells0, cells, s, init);
      var x, y := p[|p| - 2], p[|p| - 1];
      assert init[|init| - 1] == x;
      IndexAt(x);
      IndexAt(y);
      assert Uncovered(cells, Pos(Index(x)));
      assert Touching(Pos(Index(x)), Pos(Index(y)));
    }
  }

  /** CLICK on an unrevealed 0 reveals it and queues UNREVEAL and
      REVEAL_EMPTIES from it. */
  lemma ZeroClickQueues(cells: seq<Cell>, bombs: seq<Coord>, k: nat)
    requires k < |cells| && cells[k].state == Unrevealed && cells[k].value == Count(0)
    ensures AfterUserEvent(cells, bombs, Playing, k, Click) ==
      Run(cells[k := cells[k].(state := Revealed)], bombs, Playing,
          [Unreveal(cells[k].coords), RevealEmpties(cells[k].coords)])
  {
    var s := cells[k].coords;
    assert [Unreveal(s)] + [RevealEmpties(s)] == [Unreveal(s), RevealEmpties(s)];
  }

  /** That reveal and that worklist are the start of a flood from the
      clicked cell. */
  lemma FloodStart(cells: seq<Cell>, bombs: seq<Coord>, k: nat)
    requires WellFormed(cells, bombs) && k < |cells|
    requires cells[k].state == Unrevealed && cells[k].value == Count(0)
    ensures Flooding(cells, bombs, Pos(k), cells[k := cells[k].(state := Revealed)], Playing,
                     [Unreveal(Pos(k)), RevealEmpties(Pos(k))])
  {
    var s := Pos(k);
    var c1 := cells[k := cells[k].(state := Revealed)];
    var q := [Unreveal(s), RevealEmpties(s)];
    PosAt(k);
    assert FloodPath(cells, [s]);
    assert InFlood(cells, s, s);
    assert Advances(cells, c1);
    assert forall m <- q :: m == Unreveal(s) || m == RevealEmpties(s);
    forall j | 0 <= j < |c1| && c1[j].state != cells[j].state
      ensures InFlood(cells, s, Pos(j))
    {
      assert j == k;
    }
    forall j | 0 <= j < |c1| && c1[j].state == Revealed && cells[j].state != Revealed && c1[j].value == Count(0)
      ensures RevealEmpties(Pos(j)) in q
    {
      assert j == k;
    }
  }

  /** A flood that has drained has not lost, has revealed every cell it
      reaches and has changed nothing else. */
  lemma FloodDone(cells0: seq<Cell>, bombs: seq<Coord>, s: Coord, cells: seq<Cell>, status: Status)
    requires Flooding(cells0, bombs, s, cells, status, [])
    ensures status != Lost
    ensures forall j :: 0 <= j < |cells0| ==>
      cells[j].state == if InFlood(cells0, s, Pos(j)) then Revealed else cells0[j].state
  {
    forall j | 0 <= j < |cells0|
      ensures cells[j].state == if InFlood(cells0, s, Pos(j)) then Revealed else cells0[j].state
    {
      if InFlood(cells0, s, Pos(j)) {
        var p :| FloodPath(cells0, p) && p[0] == s && p[|p| - 1] == Pos(j);
        PosAt(j);
        FloodPathRevealed(cells0, cells, s, p);
      }
    }
  }

  /** The flood: CLICK on an unrevealed 0 reveals exactly the cells the
      flood from it reaches, each at most once, never loses, and changes no
      other cell. */
  lemma ClickOnZero(cells: seq<Cell>, bombs: seq<Coord>, k: nat)
    requires WellFormed(cells, bombs) && k < |cells|
    requires cells[k].state == Unrevealed && cells[k].value == Count(0)
    ensures AfterUserEvent(cells, bombs, Playing, k, Click).1 != Lost
    ensures forall j :: 0 <= j < |cells| ==>
      AfterUserEvent(cells, bombs, Playing, k, Click).0[j].state ==
        if InFlood(cells, Pos(k), Pos(j)) then Revealed else cells[j].state
  {
    var s := Pos(k);
    var c1 := cells[k := cells[k].(state := Revealed)];
    var q := [Unreveal(s), RevealEmpties(s)];
    assert cells[k].coords == s;
    ZeroClickQueues(cells, bombs, k);
    FloodStart(cells, bombs, k);
    FloodRun(cells, bombs, s, c1, Playing, q);
    var r := Run(c1, bombs, Playing, q);
    FloodDone(cells, bombs, s, r.0, r.1);
  }

  // ---------------------------------------------------------------------
  // The imperative machine
  // ---------------------------------------------------------------------

  class Game {
    var cells: seq<Cell>
    var bombsCoords: seq<Coord>
    var status: Status

    /** The board is as fillField laid it out, and a game still being played
        shows no mine and has no win due. */
    ghost predicate Valid()
      reads this
    {
      WellFormed(cells, bombsCoords) && (status == Playing ==> Live(cells, bombsCoords))
    }

    /** The machine starts in playing, whose entry action is fillField. */
    constructor (draws: seq<Coord>)
      requires forall d <- draws :: IsInLimits(d, ROWS, COLS)
      requires RandomCoords(BOMBS, draws).Some?
      ensures Valid() && status == Playing
      ensures bombsCoords == RandomCoords(BOMBS, draws).value
      ensures cells == Field(bombsCoords)
    {
      var cs, bs := FillField(draws);
      cells, bombsCoords, status := cs, bs, Playing;
      FieldWellFormed(draws);
    }

    /** RESTART, in any state: reset empties cells and bombsCoords, then
        playing is entered again and fillField runs with fresh draws. */
    method Restart(draws: seq<Coord>)
      requires forall d <- draws :: IsInLimits(d, ROWS, COLS)
      requires RandomCoords(BOMBS, draws).Some?
      modifies this
      ensures Valid() && status == Playing
      ensures bombsCoords == RandomCoords(BOMBS, draws).value
      ensures cells == Field(bombsCoords)
    {
      cells, bombsCoords := [], [];
      status := Playing;
      cells, bombsCoords := FillField(draws);
      FieldWellFormed(draws);
    }

    /** cell.send(e): cell k takes one transition; what it sends to the game
        is returned. */
    method SendToCell(k: nat, e: CellEvent) returns (out: seq<GameEvent>)
      requires k < |cells|
      modifies this
      ensures cells == old(cells)[k := Receive(old(cells)[k], e).0]
      ensures out == Receive(old(cells)[k], e).1
      ensures bombsCoords == old(bombsCoords) && status == old(status)
    {
      var (c, o) := Receive(cells[k], e);
      cells := cells[k := c];
      out := o;
    }

    /** revealEmpties and revealNeighbors (the same code): REVEAL to every
        neighbour of the caller that a cell can be found for. */
    method RevealAround(at: Coord) returns (sent: seq<GameEvent>)
      modifies this
      ensures (cells, sent) == RevealTargets(old(cells), Neighbors(at, ROWS, COLS))
      ensures bombsCoords == old(bombsCoords) && status == old(status)
    {
      var ns := GetNeighbors(at, ROWS, COLS);
      sent := [];
      for i := 0 to |ns|
        invariant (cells, sent) == RevealTargets(old(cells), ns[..i])
        invariant bombsCoords == old(bombsCoords) && status == old(status)
      {
        assert ns[..i + 1][..i] == ns[..i];
        var found := FindCell(cells, ns[i]);
        if found.Some? {
          var out := SendToCell(found.value, Reveal);
          sent := sent + out;
        }
      }
      assert ns[..|ns|] == ns;
    }

    /** explode: REVEAL to every cell, in order. */
    method ExplodeAll() returns (sent: seq<GameEvent>)
      modifies this
      ensures (cells, sent) == RevealFirst(old(cells), |old(cells)|)
      ensures bombsCoords == old(bombsCoords) && status == old(status)
    {
      sent := [];
      for k := 0 to |cells|
        invariant |cells| == |old(cells)|
        invariant (cells, sent) == RevealFirst(old(cells), k)
        invariant bombsCoords == old(bombsCoords) && status == old(status)
      {
        var out := SendToCell(k, Reveal);
        sent := sent + out;
      }
    }

    /** The game machine handling one message. */
    method Handle(m: GameEvent) returns (sent: seq<GameEvent>)
      modifies this
      ensures Reaction(cells, status, sent) == Step(old(cells), bombsCoords, old(status), m)
      ensures bombsCoords == old(bombsCoords)
    {
      sent := [];
      match m
      case Win =>
        status := Won;
      case Flag(_) =>
      case Unflag(_) =>
      case Unreveal(_) =>
        if status == Playing && CheckWin(cells, bombsCoords) {
          sent := [Win];
        }
      case Explode(_) =>
        if status == Playing {
          sent := ExplodeAll();
          status := Lost;
        }
      case RevealEmpties(at) =>
        if status == Playing {
          sent := RevealAround(at);
        }
      case RevealNeighbors(at) =>
        if status == Playing {
          sent := RevealAround(at);
        }
    }

    /** The game's mailbox: handle messages in order until none is left. */
    method Drain(queue: seq<GameEvent>)
      modifies this
      ensures (cells, status) == Run(old(cells), bombsCoords, old(status), queue)
      ensures bombsCoords == old(bombsCoords)
    {
      var q := queue;
      while q != []
        invariant Run(cells, bombsCoords, status, q) == Run(old(cells), bombsCoords, old(status), queue)
        invariant bombsCoords == old(bombsCoords)
        decreases Hidden(cells), Weight(q)
      {
        var m := q[0];
        StepShrinks(cells, bombsCoords, status, m);
        WeightAppend(q[1..], Step(cells, bombsCoords, status, m).sent);
        assert Weight(q) == Weight([m]) + Weight(q[1..]);
        var sent := Handle(m);
        q := q[1..] + sent;
      }
    }

    /** The player's CLICK or TOGGLE_FLAG on cell k (the Cell component sends
        them to the cell whatever the game's state). */
    method UserEvent(k: nat, e: CellEvent)
      requires Valid() && k < |cells| && e != Reveal
      modifies this
      ensures Valid() && bombsCoords == old(bombsCoords)
      ensures (cells, status) == AfterUserEvent(old(cells), bombsCoords, old(status), k, e)
      ensures old(status) == Playing ==> status == Verdict(cells, bombsCoords)
      ensures old(status) != Playing ==> status == old(status)
    {
      ghost var before := cells;
      var out := SendToCell(k, e);
      Drain(out);
      UserEventKeepsBoard(before, bombsCoords, old(status), k, e);
      if old(status) == Playing {
        UserEventVerdict(before, bombsCoords, k, e);
        if CheckWin(cells, bombsCoords) {
          WinHidesMines(cells, bombsCoords);
        }
      } else {
        GameOverSticks(before, bombsCoords, old(status), k, e);
      }
    }
  }
}
