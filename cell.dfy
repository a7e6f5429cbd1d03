/** The per-cell state machine of the mine-sweeper board (createCellMachine
    in app/components/Cell.tsx). A cell actor holds its coordinates and its
    value, both fixed when it is spawned, and a state among unrevealed,
    flagged and revealed. Receive is the machine's transition function: the
    cell after one event and the messages it sends to its parent with
    sendParent, in the order xstate runs them (exit actions of the state
    left, then the transition's own actions, then entry actions of the state
    entered). An event the current state has no handler for is ignored. */
module CellMachine {
  import opened Utils

  /** A cell's value: 'X' for a mine, otherwise its adjacent-mine count. */
  datatype Value = Mine | Count(n: nat)

  datatype CellState = Unrevealed | Flagged | Revealed

  /** The snapshot of one cell actor. */
  datatype Cell = Cell(coords: Coord, value: Value, state: CellState)

  /** Events a cell handles: CLICK and TOGGLE_FLAG come from the player,
      REVEAL from the game. */
  datatype CellEvent = Click | Reveal | ToggleFlag

  /** Events of the game machine: the messages cells send to their parent,
      each carrying the sender's coordinates, and WIN, which the game sends
      to itself. */
  datatype GameEvent =
    | RevealEmpties(at: Coord)
    | Explode(at: Coord)
    | Unreveal(at: Coord)
    | Flag(at: Coord)
    | Unflag(at: Coord)
    | RevealNeighbors(at: Coord)
    | Win

  /** The action of the CLICK and REVEAL transitions out of unrevealed:
      REVEAL_EMPTIES for a 0, EXPLODE for a mine, nothing otherwise. */
  function RevealAction(c: Cell): (r: seq<GameEvent>)
    ensures |r| <= 1
    ensures forall m <- r :: m != Win && m.at == c.coords
    ensures RevealEmpties(c.coords) in r <==> c.value == Count(0)
    ensures Explode(c.coords) in r <==> c.value == Mine
    ensures r == [] <==> c.value.Count? && c.value.n != 0
  {
    if c.value == Count(0) then [RevealEmpties(c.coords)]
    else if c.value == Mine then [Explode(c.coords)]
    else assert c.value == Count(c.value.n); []
  }

  /** The transition function of createCellMachine. */
  function Receive(c: Cell, e: CellEvent): (r: (Cell, seq<GameEvent>))
    ensures r.0.coords == c.coords && r.0.value == c.value
    ensures forall m <- r.1 :: m != Win && m.at == c.coords
  {
    match (c.state, e)
    case (Unrevealed, Click) => (c.(state := Revealed), [Unreveal(c.coords)] + RevealAction(c))
    case (Unrevealed, Reveal) => (c.(state := Revealed), [Unreveal(c.coords)] + RevealAction(c))
    case (Unrevealed, ToggleFlag) => (c.(state := Flagged), [Unreveal(c.coords), Flag(c.coords)])
    case (Flagged, ToggleFlag) => (c.(state := Unrevealed), [Unflag(c.coords)])
    case (Revealed, Click) => (c, [RevealNeighbors(c.coords)])
    case _ => (c, [])
  }

  /** CLICK or REVEAL on an unrevealed cell reveals it; after UNREVEAL it
      sends REVEAL_EMPTIES exactly when its value is 0, EXPLODE exactly when
      it is a mine, and nothing more for the values 1 to 8. */
  lemma RevealFromUnrevealed(c: Cell, e: CellEvent)
    requires c.state == Unrevealed && (e == Click || e == Reveal)
    ensures Receive(c, e).0.state == Revealed
    ensures Receive(c, e).1[0] == Unreveal(c.coords)
    ensures RevealEmpties(c.coords) in Receive(c, e).1 <==> c.value == Count(0)
    ensures Explode(c.coords) in Receive(c, e).1 <==> c.value == Mine
    ensures |Receive(c, e).1| == 1 <==> c.value.Count? && c.value.n != 0
  {
  }

  /** UNREVEAL is sent on every exit from unrevealed, whether by a reveal or
      by a flag, and at no other time; it comes first. */
  lemma UnrevealOnExit(c: Cell, e: CellEvent)
    ensures Unreveal(c.coords) in Receive(c, e).1 <==>
      c.state == Unrevealed && Receive(c, e).0.state != Unrevealed
    ensures Unreveal(c.coords) in Receive(c, e).1 ==> Receive(c, e).1[0] == Unreveal(c.coords)
  {
  }

  /** TOGGLE_FLAG alternates unrevealed and flagged; entering flagged sends
      FLAG, leaving it sends UNFLAG. */
  lemma ToggleFlagAlternates(c: Cell)
    requires c.state != Revealed
    ensures Receive(c, ToggleFlag).0.state == if c.state == Unrevealed then Flagged else Unrevealed
    ensures Flag(c.coords) in Receive(c, ToggleFlag).1 <==> c.state == Unrevealed
    ensures Unflag(c.coords) in Receive(c, ToggleFlag).1 <==> c.state == Flagged
  {
  }

  /** A flagged cell ignores CLICK and REVEAL: it must be unflagged before it
      can be revealed. */
  lemma FlaggedIgnoresReveal(c: Cell, e: CellEvent)
    requires c.state == Flagged && e != ToggleFlag
    ensures Receive(c, e) == (c, [])
  {
  }

  /** Revealed is absorbing: REVEAL and TOGGLE_FLAG are ignored, and CLICK
      sends REVEAL_NEIGHBORS whatever the value, without changing the cell. */
  lemma RevealedIsFinal(c: Cell, e: CellEvent)
    requires c.state == Revealed
    ensures Receive(c, e).0 == c
    ensures Receive(c, e).1 == if e == Click then [RevealNeighbors(c.coords)] else []
  {
  }

  /** The only state changes are unrevealed to revealed, unrevealed to
      flagged and flagged to unrevealed; a cell that sends nothing has not
      changed. */
  lemma StateChanges(c: Cell, e: CellEvent)
    ensures var s := Receive(c, e).0.state;
      s == c.state ||
      (c.state == Unrevealed && s == Revealed) ||
      (c.state == Unrevealed && s == Flagged) ||
      (c.state == Flagged && s == Unrevealed)
    ensures Receive(c, e).1 == [] ==> Receive(c, e).0 == c
  {
  }
}
