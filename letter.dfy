/** The per-letter state machine of the word game (createLetterMachine in
    app/components/palabrito/LetterInput.js). A letter actor holds its
    coordinates [row, column], fixed when it is spawned, the character typed
    into it, and a state: active, or inactive in one of the substates notYet,
    correct, almostCorrect and regular. Receive is the machine's transition
    function: the letter after one event and the message it sends to the
    game with sendParent, if any. An event the current state has no handler
    for is ignored. */
module LetterMachine {
  import opened Utils

  /** The substates of inactive: notYet waits for its row to be played, the
      other three show the scoring of a submitted row. */
  datatype Inactive = NotYet | Correct | AlmostCorrect | Regular

  datatype LetterState = Active | Inactive(sub: Inactive)

  /** The snapshot of one letter actor. Characters are Unicode scalar values
      (JavaScript's UTF-16 code units are not modelled). */
  datatype Letter = Letter(coords: Coord, value: string, state: LetterState)

  /** Events a letter handles: CHANGE, BACK and ROW_SUBMIT come from the
      player's input box, the others from the game. */
  datatype LetterEvent =
    | Change(input: string)
    | Back
    | Focus
    | RowSubmit
    | ShowCorrect
    | ShowAlmostCorrect
    | ShowWrong
    | Activate

  /** Messages a letter sends to the game, each with the sender's
      coordinates: GO_NEXT_LETTER, GO_BACK_LETTER and ROW_SUBMIT. */
  datatype Notice = GoNextLetter(at: Coord) | GoBackLetter(at: Coord) | RowSubmitted(at: Coord)

  /** A letter as the game spawns it: empty, and active when initialState is
      'active', in inactive.notYet when it is 'inactive'. */
  function Spawn(coords: Coord, active: bool): (l: Letter)
    ensures l.coords == coords && l.value == ""
    ensures l.state == Active <==> active
    ensures l.state.Inactive? ==> l.state.sub == NotYet
  {
    Letter(coords, "", if active then Active else Inactive(NotYet))
  }

  /** updateValue: the value keeps at most one character, the last one
      typed, and is empty exactly when the input is. */
  function UpdateValue(input: string): (v: string)
    ensures |v| <= 1
    ensures v == "" <==> input == ""
    ensures input != "" ==> v[0] == input[|input| - 1]
  {
    if input == [] then "" else [input[|input| - 1]]
  }

  /** The transition function of createLetterMachine. FOCUS only moves the
      browser's focus, so it changes nothing here. */
  function Receive(l: Letter, e: LetterEvent): (r: (Letter, Option<Notice>))
    ensures r.0.coords == l.coords
    ensures r.1.Some? ==> r.1.value.at == l.coords
  {
    match l.state
    case Active =>
      (match e
       case Change(input) =>
         (l.(value := UpdateValue(input)), if input != "" then Some(GoNextLetter(l.coords)) else None)
       case Back => (l, if l.value == "" then Some(GoBackLetter(l.coords)) else None)
       case Focus => (l, None)
       case RowSubmit => (l, Some(RowSubmitted(l.coords)))
       case ShowCorrect => (l.(state := Inactive(Correct)), None)
       case ShowAlmostCorrect => (l.(state := Inactive(AlmostCorrect)), None)
       case ShowWrong => (l.(state := Inactive(Regular)), None)
       case Activate => (l, None))
    case Inactive(NotYet) =>
      if e == Activate then (l.(state := Active), None) else (l, None)
    case Inactive(_) => (l, None)
  }

  /** CHANGE while active always updates the value, and sends GO_NEXT_LETTER
      exactly when the input is not empty. */
  lemma ChangeWhileActive(l: Letter, input: string)
    requires l.state == Active
    ensures Receive(l, Change(input)).0 == l.(value := UpdateValue(input))
    ensures Receive(l, Change(input)).1 == Some(GoNextLetter(l.coords)) <==> input != ""
    ensures Receive(l, Change(input)).1.None? <==> input == ""
  {
  }

  /** BACK never changes the letter, and sends GO_BACK_LETTER exactly when
      the letter is active and empty. */
  lemma BackOnlyWhenEmpty(l: Letter)
    ensures Receive(l, Back).0 == l
    ensures Receive(l, Back).1.Some? <==> l.state == Active && l.value == ""
    ensures Receive(l, Back).1.Some? ==> Receive(l, Back).1.value == GoBackLetter(l.coords)
  {
  }

  /** ROW_SUBMIT is forwarded, with the letter's own coordinates, exactly
      when the letter is active. */
  lemma RowSubmitForwarded(l: Letter)
    ensures Receive(l, RowSubmit).0 == l
    ensures Receive(l, RowSubmit).1 == if l.state == Active then Some(RowSubmitted(l.coords)) else None
  {
  }

  /** The scoring events move an active letter to the matching inactive
      substate. */
  lemma ShowFromActive(l: Letter)
    requires l.state == Active
    ensures Receive(l, ShowCorrect) == (l.(state := Inactive(Correct)), None)
    ensures Receive(l, ShowAlmostCorrect) == (l.(state := Inactive(AlmostCorrect)), None)
    ensures Receive(l, ShowWrong) == (l.(state := Inactive(Regular)), None)
  {
  }

  /** correct, almostCorrect and regular have no outgoing transitions. */
  lemma ScoredIsFinal(l: Letter, e: LetterEvent)
    requires l.state.Inactive? && l.state.sub != NotYet
    ensures Receive(l, e) == (l, None)
  {
  }

  /** Only ACTIVATE in inactive.notYet leaves it, to active; while inactive
      the value is frozen and nothing is sent. */
  lemma InactiveFrozen(l: Letter, e: LetterEvent)
    requires l.state.Inactive?
    ensures Receive(l, e).0.value == l.value && Receive(l, e).1 == None
    ensures Receive(l, e).0.state == if l.state == Inactive(NotYet) && e == Activate then Active else l.state
  {
  }

  /** A letter never holds more than one character. */
  lemma ValueAtMostOne(l: Letter, e: LetterEvent)
    requires |l.value| <= 1
    ensures |Receive(l, e).0.value| <= 1
  {
  }
}
