/** The word game (gameMachine in app/routes/palabrito.jsx): six tries to
    guess a five-letter word. The game owns one letter actor per square of a
    6-by-5 grid, in the row-major order initialize spawns them, and the
    target word. While playing it first waits for the target word, then sits
    idle, and when a row is submitted waits for the lookup that says whether
    the guess is a word; that answer decides between won, lost, the next row
    and idle again. The two network answers are parameters of the methods
    that receive them. */
module Palabrito {
  import opened Utils
  import opened LetterMachine

  const LENGTH: int := 5
  const MAX_TRIES: int := 6

  /** The coordinates of the k-th spawned letter: initialize spawns row by
      row. */
  function At(k: int): Coord {
    (k / LENGTH, k % LENGTH)
  }

  /** The index in `letters` of the letter at an on-grid coordinate. */
  function Slot(c: Coord): int {
    c.0 * LENGTH + c.1
  }

  predicate OnGrid(c: Coord) {
    0 <= c.0 < MAX_TRIES && 0 <= c.1 < LENGTH
  }

  /** One letter per grid square, in row-major order. */
  ghost predicate Laid(letters: seq<Letter>) {
    |letters| == MAX_TRIES * LENGTH && forall k :: 0 <= k < |letters| ==> letters[k].coords == At(k)
  }

  lemma AtSlot()
    ensures forall c :: OnGrid(c) ==> 0 <= Slot(c) < MAX_TRIES * LENGTH && At(Slot(c)) == c
    ensures forall k :: 0 <= k < MAX_TRIES * LENGTH ==> OnGrid(At(k)) && Slot(At(k)) == k
  {
  }

  // ---------------------------------------------------------------------
  // initialize
  // ---------------------------------------------------------------------

  /** The letters initialize spawns: row 0 active, every other row in
      inactive.notYet, all empty. */
  function Spawned(): seq<Letter> {
    seq(MAX_TRIES * LENGTH, k => Spawn(At(k), At(k).0 == 0))
  }

  /** initialize spawns maxTries times length letters, laid out row by row,
      with exactly row 0 active. */
  lemma SpawnedLayout()
    ensures Laid(Spawned())
    ensures forall k :: 0 <= k < |Spawned()| ==>
      Spawned()[k].value == "" && (Spawned()[k].state == Active <==> k < LENGTH) &&
      (k >= LENGTH ==> Spawned()[k].state == Inactive(NotYet))
  {
  }

  // ---------------------------------------------------------------------
  // Finding letters, reading rows
  // ---------------------------------------------------------------------

  /** letters.find by id: the first letter whose coordinates are c. */
  function FindLetter(letters: seq<Letter>, c: Coord): (r: Option<nat>)
    ensures r.Some? ==> r.value < |letters| && letters[r.value].coords == c
    ensures r.Some? ==> forall j :: 0 <= j < r.value ==> letters[j].coords != c
    ensures r.None? ==> forall j :: 0 <= j < |letters| ==> letters[j].coords != c
  {
    if letters == [] then None
    else if letters[0].coords == c then Some(0)
    else
      match FindLetter(letters[1..], c)
      case None => None
      case Some(j) => Some(j + 1)
  }

  /** On a laid-out grid, find by id finds the letter at an on-grid
      coordinate and nothing for an off-grid one. */
  lemma FindLetterLaid(letters: seq<Letter>, c: Coord)
    requires Laid(letters)
    ensures FindLetter(letters, c) == if OnGrid(c) then Some(Slot(c)) else None
  {
    AtSlot();
    if OnGrid(c) {
      assert letters[Slot(c)].coords == c;
    }
  }

  /** getLetterFromRow: the values of the letters whose row is r, in array
      order, joined. */
  function GetLetterFromRow(letters: seq<Letter>, r: int): (s: string)
    ensures forall ch <- s :: exists l <- letters :: l.coords.0 == r && ch in l.value
  {
    if letters == [] then ""
    else
      var last := letters[|letters| - 1];
      GetLetterFromRow(letters[..|letters| - 1], r) + (if last.coords.0 == r then last.value else "")
  }

  /** The values of the first c letters of row r, column by column, joined. */
  function RowPrefix(letters: seq<Letter>, r: int, c: nat): string
    requires 0 <= r < MAX_TRIES && c <= LENGTH && |letters| == MAX_TRIES * LENGTH
  {
    if c == 0 then "" else RowPrefix(letters, r, c - 1) + letters[r * LENGTH + c - 1].value
  }

  function Clamp(x: int): nat {
    if x < 0 then 0 else if x > LENGTH then LENGTH else x
  }

  lemma {:induction false} RowOfPrefix(letters: seq<Letter>, r: int, n: nat)
    requires Laid(letters) && 0 <= r < MAX_TRIES && n <= |letters|
    ensures GetLetterFromRow(letters[..n], r) == RowPrefix(letters, r, Clamp(n - r * LENGTH))
  {
    if n > 0 {
      var k := n - 1;
      assert letters[..n][..k] == letters[..k];
      assert letters[..n][k] == letters[k];
      RowOfPrefix(letters, r, k);
      assert letters[k].coords.0 == k / LENGTH;
      if k < r * LENGTH {
        assert k / LENGTH < r;
      } else if k < r * LENGTH + LENGTH {
        assert k / LENGTH == r;
      } else {
        assert k / LENGTH > r;
      }
    }
  }

  lemma {:induction false} RowOfNothing(letters: seq<Letter>, r: int)
    requires forall l <- letters :: l.coords.0 != r
    ensures GetLetterFromRow(letters, r) == ""
  {
    if letters != [] {
      RowOfNothing(letters[..|letters| - 1], r);
    }
  }

  /** getLetterFromRow reads row r left to right on a laid-out grid, and
      reads nothing for a row off the grid. */
  lemma RowWord(letters: seq<Letter>, r: int)
    requires Laid(letters)
    ensures GetLetterFromRow(letters, r) == if 0 <= r < MAX_TRIES then RowPrefix(letters, r, LENGTH) else ""
  {
    if 0 <= r < MAX_TRIES {
      RowOfPrefix(letters, r, |letters|);
      assert letters[..|letters|] == letters;
    } else {
      RowOfNothing(letters, r);
    }
  }

  lemma {:induction false} RowPrefixChars(letters: seq<Letter>, r: int, c: nat)
    requires 0 <= r < MAX_TRIES && c <= LENGTH && |letters| == MAX_TRIES * LENGTH
    requires forall k :: 0 <= k < |letters| ==> |letters[k].value| <= 1
    ensures |RowPrefix(letters, r, c)| <= c
    ensures |RowPrefix(letters, r, c)| == c <==> forall i :: 0 <= i < c ==> letters[Slot((r, i))].value != ""
    ensures |RowPrefix(letters, r, c)| == c ==>
      forall i :: 0 <= i < c ==> RowPrefix(letters, r, c)[i] == letters[Slot((r, i))].value[0]
  {
    if c > 0 {
      RowPrefixChars(letters, r, c - 1);
      var v := letters[Slot((r, c - 1))].value;
      assert RowPrefix(letters, r, c) == RowPrefix(letters, r, c - 1) + v;
      if |RowPrefix(letters, r, c)| == c {
        assert |RowPrefix(letters, r, c - 1)| == c - 1 && |v| == 1;
      }
    }
  }

  /** isRowValid: the row's joined values have the word's length. */
  predicate IsRowValid(letters: seq<Letter>, r: int) {
    |GetLetterFromRow(letters, r)| == LENGTH
  }

  /** With letters of at most one character, a row may be submitted exactly
      when it is on the grid and every one of its letters is filled in; the
      guess then spells the row's letters in column order. */
  lemma RowValidIff(letters: seq<Letter>, r: int)
    requires Laid(letters) && forall k :: 0 <= k < |letters| ==> |letters[k].value| <= 1
    ensures IsRowValid(letters, r) <==>
      0 <= r < MAX_TRIES && forall c :: 0 <= c < LENGTH ==> letters[Slot((r, c))].value != ""
    ensures IsRowValid(letters, r) ==>
      forall c :: 0 <= c < LENGTH ==> GetLetterFromRow(letters, r)[c] == letters[Slot((r, c))].value[0]
  {
    RowWord(letters, r);
    if 0 <= r < MAX_TRIES {
      RowPrefixChars(letters, r, LENGTH);
    }
  }

  // ---------------------------------------------------------------------
  // The cursor guards
  // ---------------------------------------------------------------------

  predicate IsNotLastLetter(at: Coord) {
    at.1 < LENGTH - 1
  }

  predicate IsNotFirstLetter(at: Coord) {
    at.1 > 0
  }

  /** The coordinates goNextLetter or goBackLetter sends FOCUS to, when the
      guard lets the message through. */
  function FocusTarget(n: Notice): Option<Coord> {
    match n
    case GoNextLetter(at) => if IsNotLastLetter(at) then Some((at.0, at.1 + 1)) else None
    case GoBackLetter(at) => if IsNotFirstLetter(at) then Some((at.0, at.1 - 1)) else None
    case RowSubmitted(_) => None
  }

  /** The guards keep the cursor on the sender's row: a letter of the grid
      moves the focus to a letter that exists, the next or the previous one
      in its row. */
  lemma FocusExists(letters: seq<Letter>, n: Notice)
    requires Laid(letters) && OnGrid(n.at)
    ensures FocusTarget(n).Some? ==>
      FindLetter(letters, FocusTarget(n).value) == Some(Slot(FocusTarget(n).value))
    ensures FocusTarget(n).Some? <==>
      (n.GoNextLetter? && n.at.1 < LENGTH - 1) || (n.GoBackLetter? && n.at.1 > 0)
    ensures FocusTarget(n).Some? ==>
      Slot(FocusTarget(n).value) == Slot(n.at) + (if n.GoNextLetter? then 1 else -1)
  {
    if FocusTarget(n).Some? {
      FindLetterLaid(letters, FocusTarget(n).value);
    }
  }

  // ---------------------------------------------------------------------
  // Scoring a row
  // ---------------------------------------------------------------------

  /** The event showRowResults sends to the letter in column col holding ch:
      correct when the target has ch in the same column, otherwise almost
      correct when the target has ch anywhere, and wrong exactly when ch
      appears nowhere in the target. */
  function Score(target: string, ch: char, col: int): (e: LetterEvent)
    ensures e == ShowCorrect || e == ShowAlmostCorrect || e == ShowWrong
    ensures e == ShowCorrect <==> 0 <= col < |target| && target[col] == ch
    ensures e == ShowAlmostCorrect <==> !(0 <= col < |target| && target[col] == ch) && ch in target
    ensures e == ShowWrong <==> ch !in target
  {
    if 0 <= col < |target| && target[col] == ch then ShowCorrect
    else if ch in target then ShowAlmostCorrect
    else ShowWrong
  }

  /** The letters once showRowResults has sent its events for the columns
      below n: the letter of row r in column col gets the score of guess[col]. */
  function ShowResults(letters: seq<Letter>, target: string, r: int, guess: string, n: nat): seq<Letter>
    requires n <= |guess|
  {
    seq(|letters|, k requires 0 <= k < |letters| =>
      if letters[k].coords.0 == r && 0 <= letters[k].coords.1 < n
      then Receive(letters[k], Score(target, guess[letters[k].coords.1], letters[k].coords.1)).0
      else letters[k])
  }

  /** showRowResults on an active row with a guess of the word's length
      scores every letter of that row, one event each, and touches no other
      letter. */
  lemma ShowResultsRow(letters: seq<Letter>, target: string, r: int, guess: string)
    requires Laid(letters) && 0 <= r < MAX_TRIES && |guess| == LENGTH
    requires forall c :: 0 <= c < LENGTH ==> letters[Slot((r, c))].state == Active
    ensures forall k :: 0 <= k < |letters| ==>
      ShowResults(letters, target, r, guess, LENGTH)[k] ==
        if At(k).0 == r then
          letters[k].(state := Inactive(
            if At(k).1 < |target| && target[At(k).1] == guess[At(k).1] then Correct
            else if guess[At(k).1] in target then AlmostCorrect
            else Regular))
        else letters[k]
  {
    AtSlot();
  }

  /** The letters once every letter of row r has been sent ACTIVATE. */
  function Activated(letters: seq<Letter>, r: int): seq<Letter> {
    seq(|letters|, k requires 0 <= k < |letters| =>
      if letters[k].coords.0 == r then Receive(letters[k], Activate).0 else letters[k])
  }

  /** moveToNextRow activates exactly the letters of the next row that were
      waiting in notYet, and changes no letter of any other row. */
  lemma ActivatedRow(letters: seq<Letter>, r: int)
    requires Laid(letters)
    ensures forall k :: 0 <= k < |letters| ==>
      Activated(letters, r)[k] ==
        if At(k).0 == r && letters[k].state == Inactive(NotYet) then letters[k].(state := Active)
        else letters[k]
  {
  }

  /** Scoring the active row r leaves the grid laid out, with every row
      before r and r itself scored and every later row waiting. */
  lemma ScoreKeepsRows(letters: seq<Letter>, target: string, r: int, guess: string)
    requires Laid(letters) && forall k :: 0 <= k < |letters| ==> |letters[k].value| <= 1
    requires 0 <= r < MAX_TRIES && |guess| == LENGTH && Rows(letters, r, true)
    ensures var ls := ShowResults(letters, target, r, guess, LENGTH);
      && Laid(ls) && (forall k :: 0 <= k < |ls| ==> |ls[k].value| <= 1)
      && Rows(ls, r, false)
      && forall k :: 0 <= k < |ls| && At(k).0 == r ==> ls[k].state.Inactive? && ls[k].state.sub != NotYet
  {
    forall c | 0 <= c < LENGTH
      ensures letters[Slot((r, c))].state == Active
    {
      assert At(Slot((r, c))) == (r, c);
    }
    ShowResultsRow(letters, target, r, guess);
  }

  /** Activating the row after a scored row makes it the active row. */
  lemma NextRowRows(letters: seq<Letter>, r: int)
    requires Laid(letters) && forall k :: 0 <= k < |letters| ==> |letters[k].value| <= 1
    requires 0 <= r < MAX_TRIES - 1 && Rows(letters, r, false)
    requires forall k :: 0 <= k < |letters| && At(k).0 == r ==> letters[k].state.Inactive? && letters[k].state.sub != NotYet
    ensures var ls := Activated(letters, r + 1);
      && Laid(ls) && (forall k :: 0 <= k < |ls| ==> |ls[k].value| <= 1)
      && Rows(ls, r + 1, true)
  {
    ActivatedRow(letters, r + 1);
  }

  // ---------------------------------------------------------------------
  // Deciding a submission
  // ---------------------------------------------------------------------

  /** String.prototype.toLowerCase on one character, for the Basic Latin and
      Latin-1 capital letters. Characters are Unicode scalar values
      (JavaScript's UTF-16 code units are not modelled). */
  function LowerChar(ch: char): char {
    if 'A' <= ch <= 'Z' then (ch as int + 32) as char
    else if 0xC0 <= ch as int <= 0xDE && ch as int != 0xD7 then (ch as int + 32) as char
    else ch
  }

  function ToLower(s: string): string {
    if s == [] then [] else ToLower(s[..|s| - 1]) + [LowerChar(s[|s| - 1])]
  }

  /** sameWord: the guess and the target are equal ignoring case. */
  predicate SameWord(guess: string, target: string) {
    ToLower(guess) == ToLower(target)
  }

  lemma {:induction false} ToLowerChars(s: string)
    ensures |ToLower(s)| == |s|
    ensures forall i :: 0 <= i < |s| ==> ToLower(s)[i] == LowerChar(s[i])
  {
    if s != [] {
      ToLowerChars(s[..|s| - 1]);
    }
  }

  /** sameWord compares letter by letter, ignoring case: words of different
      lengths never match. */
  lemma SameWordLetterwise(guess: string, target: string)
    ensures SameWord(guess, target) <==>
      |guess| == |target| && forall i :: 0 <= i < |guess| ==> LowerChar(guess[i]) == LowerChar(target[i])
  {
    ToLowerChars(guess);
    ToLowerChars(target);
    if |guess| == |target| && forall i :: 0 <= i < |guess| ==> LowerChar(guess[i]) == LowerChar(target[i]) {
      assert ToLower(guess) == ToLower(target);
    }
  }

  /** Lowering a word twice changes nothing more, so a word matches its
      lower-case form. */
  lemma SameWordLowered(guess: string)
    ensures ToLower(ToLower(guess)) == ToLower(guess)
    ensures SameWord(guess, ToLower(guess))
  {
    var low := ToLower(guess);
    ToLowerChars(guess);
    ToLowerChars(low);
    forall i | 0 <= i < |low|
      ensures ToLower(low)[i] == low[i]
    {
      assert low[i] == LowerChar(guess[i]);
    }
  }

  /** The outcome of a submission. */
  datatype Outcome = WonGame | LostGame | NextRow | StayIdle

  /** The onDone branches of lookingForWord, tried in order: sameWord, then
      tooManyTries, then wordExists, then the fallback. So the right word
      wins even on the last row and even if the lookup says it is not a
      word; the last row loses otherwise, whatever the lookup says; only
      then does the lookup decide between the next row and idle. */
  function Decide(target: string, r: int, guess: string, isWord: bool): (o: Outcome)
    ensures o == WonGame <==> SameWord(guess, target)
    ensures o == LostGame <==> !SameWord(guess, target) && r == MAX_TRIES - 1
    ensures o == NextRow <==> !SameWord(guess, target) && r != MAX_TRIES - 1 && isWord
    ensures o == StayIdle <==> !SameWord(guess, target) && r != MAX_TRIES - 1 && !isWord
  {
    if SameWord(guess, target) then WonGame
    else if r == MAX_TRIES - 1 then LostGame
    else if isWord then NextRow
    else StayIdle
  }

  /** ROW_SUBMIT is handled in every substate of playing, gettingInitialWord
      included, which abandons the fetch of the target word: with the empty
      word no guess of the word's length matches, and every letter is scored
      wrong. */
  lemma EmptyTarget(guess: string, ch: char, col: int)
    requires |guess| == LENGTH
    ensures !SameWord(guess, "")
    ensures Score("", ch, col) == ShowWrong
  {
    ToLowerChars(guess);
  }

  /** sameWord ignores case while the scoring does not: a guess typed in
      capitals wins, yet a capital that the lower-case target lacks is scored
      wrong. */
  lemma CaseOnlyMatters(ch: char)
    requires 'a' <= ch <= 'z'
    ensures SameWord([ch - 32 as char], [ch])
    ensures Score([ch], ch - 32 as char, 0) == ShowWrong
  {
    assert ToLower([ch - 32 as char]) == ToLower([]) + [LowerChar(ch - 32 as char)];
    assert ToLower([ch]) == ToLower([]) + [LowerChar(ch)];
  }

  // ---------------------------------------------------------------------
  // The imperative machine
  // ---------------------------------------------------------------------

  /** The substates of playing; lookingForWord keeps the row and the guess
      its lookup was started with. */
  datatype Phase = GettingInitialWord | Idle | LookingForWord(row: int, guess: string)

  datatype GameState = Playing(phase: Phase) | Won | Lost

  /** The shape of the grid while row cur is being played: the rows above
      are scored, row cur is active while playing and never waits in
      notYet, and the rows below wait in notYet. */
  ghost predicate Rows(letters: seq<Letter>, cur: int, playing: bool) {
    forall k :: 0 <= k < |letters| ==>
      (At(k).0 < cur ==> letters[k].state.Inactive? && letters[k].state.sub != NotYet) &&
      (At(k).0 == cur ==> letters[k].state != Inactive(NotYet) && (playing ==> letters[k].state == Active)) &&
      (At(k).0 > cur ==> letters[k].state == Inactive(NotYet))
  }

  class Game {
    var word: string
    var letters: seq<Letter>
    var state: GameState
    /** The row being played. */
    ghost var row: int

    ghost predicate Valid()
      reads this
    {
      && Laid(letters)
      && (forall k :: 0 <= k < |letters| ==> |letters[k].value| <= 1)
      && 0 <= row < MAX_TRIES
      && Rows(letters, row, state.Playing?)
      && (state.Playing? && state.phase.LookingForWord? ==>
            state.phase.row == row && |state.phase.guess| == LENGTH)
      && (state == Lost ==> row == MAX_TRIES - 1)
    }

    /** The machine starts in playing.gettingInitialWord, whose entry action
        is initialize, with an empty word. */
    constructor ()
      ensures Valid()
      ensures word == "" && letters == Spawned() && state == Playing(GettingInitialWord) && row == 0
    {
      word := "";
      letters := Spawned();
      state := Playing(GettingInitialWord);
      row := 0;
      new;
      SpawnedLayout();
    }

    /** initialize: spawn the letters row by row, row 0 active. The FOCUS it
        sends to the first letter only moves the browser's focus. */
    method Initialize()
      modifies this
      ensures letters == Spawned()
      ensures word == old(word) && state == old(state) && row == old(row)
    {
      var ls: seq<Letter> := [];
      for i := 0 to MAX_TRIES
        invariant ls == Spawned()[..i * LENGTH]
      {
        for j := 0 to LENGTH
          invariant ls == Spawned()[..i * LENGTH + j]
        {
          assert At(i * LENGTH + j) == (i, j);
          ls := ls + [Spawn((i, j), i == 0)];
        }
      }
      letters := ls;
    }

    /** RESTART, from any state: playing is entered again, so initialize
        spawns a fresh grid and the target word is fetched again; the old
        word stays until the new one arrives. */
    method Restart()
      modifies this
      ensures Valid()
      ensures letters == Spawned() && state == Playing(GettingInitialWord) && word == old(word) && row == 0
    {
      Initialize();
      state := Playing(GettingInitialWord);
      row := 0;
      SpawnedLayout();
    }

    /** The target word arrives: taken only while still waiting for it. */
    method InitialWordArrived(w: string)
      requires Valid()
      modifies this
      ensures Valid() && letters == old(letters) && row == old(row)
      ensures old(state) == Playing(GettingInitialWord) ==> word == w && state == Playing(Idle)
      ensures old(state) != Playing(GettingInitialWord) ==> word == old(word) && state == old(state)
    {
      if state == Playing(GettingInitialWord) {
        word := w;
        state := Playing(Idle);
      }
    }

    /** WON: handled anywhere in playing. */
    method Win()
      requires Valid()
      modifies this
      ensures Valid() && letters == old(letters) && word == old(word) && row == old(row)
      ensures state == if old(state).Playing? then Won else old(state)
    {
      if state.Playing? {
        state := Won;
      }
    }

    /** The player types into letter k (CHANGE), presses Backspace (BACK) or
        Enter (ROW_SUBMIT), whatever the game's state. The letter's message
        is handled while playing: the cursor guards decide whether and where
        FOCUS goes, which `focus` returns as an index into letters, and a
        valid row submission starts the lookup of the row's word, from any
        substate of playing. */
    method Input(k: nat, e: LetterEvent) returns (focus: Option<nat>)
      requires Valid() && k < |letters| && (e.Change? || e.Back? || e.RowSubmit?)
      modifies this
      ensures Valid() && word == old(word) && row == old(row)
      ensures letters == old(letters)[k := Receive(old(letters)[k], e).0]
      ensures var n := Receive(old(letters)[k], e).1;
        focus.Some? <==> old(state).Playing? && n.Some? && FocusTarget(n.value).Some?
      ensures focus.Some? ==> (focus.value < |letters| &&
        letters[focus.value].coords == FocusTarget(Receive(old(letters)[k], e).1.value).value)
      ensures var n := Receive(old(letters)[k], e).1;
        state == if old(state).Playing? && n.Some? && n.value.RowSubmitted? && IsRowValid(letters, n.value.at.0)
                 then Playing(LookingForWord(n.value.at.0, GetLetterFromRow(letters, n.value.at.0)))
                 else old(state)
    {
      var (l, notice) := Receive(letters[k], e);
      letters := letters[k := l];
      AtSlot();
      focus := None;
      if notice.Some? && state.Playing? {
        var n := notice.value;
        if FocusTarget(n).Some? {
          FocusExists(letters, n);
          focus := FindLetter(letters, FocusTarget(n).value);
        } else if n.RowSubmitted? && IsRowValid(letters, n.at.0) {
          RowValidIff(letters, n.at.0);
          state := Playing(LookingForWord(n.at.0, GetLetterFromRow(letters, n.at.0)));
        }
      }
    }

    /** showRowResults: one scoring event per character of the guess, to the
        letter of row r in that column. */
    method ShowRowResults(r: int, guess: string)
      requires Laid(letters) && 0 <= r < MAX_TRIES && |guess| <= LENGTH
      modifies this
      ensures letters == ShowResults(old(letters), word, r, guess, |guess|)
      ensures word == old(word) && state == old(state) && row == old(row)
    {
      AtSlot();
      for col := 0 to |guess|
        invariant letters == ShowResults(old(letters), word, r, guess, col)
        invariant word == old(word) && state == old(state) && row == old(row)
      {
        FindLetterLaid(letters, (r, col));
        var k := FindLetter(letters, (r, col)).value;
        letters := letters[k := Receive(letters[k], Score(word, guess[col], col)).0];
      }
    }

    /** moveToNextRow: ACTIVATE to every letter of row r + 1, then FOCUS to
        its first letter, which isWord because r + 1 is still a row. */
    method MoveToNextRow(r: int)
      requires Laid(letters) && 0 <= r < MAX_TRIES - 1
      modifies this
      ensures letters == Activated(old(letters), r + 1)
      ensures word == old(word) && state == old(state) && row == old(row)
    {
      var i := 0;
      while i < |letters|
        invariant 0 <= i <= |letters| == |old(letters)|
        invariant forall j :: 0 <= j < |letters| ==>
          letters[j] == if j < i then Activated(old(letters), r + 1)[j] else old(letters)[j]
        invariant word == old(word) && state == old(state) && row == old(row)
      {
        if letters[i].coords.0 == r + 1 {
          letters := letters[i := Receive(letters[i], Activate).0];
        }
        i := i + 1;
      }
      FindLetterLaid(letters, (r + 1, 0));
    }

    /** The lookup of the guess answers whether it is a word: the onDone
        branches of lookingForWord, taken only while waiting for it. */
    method LookupDone(isWord: bool)
      requires Valid()
      modifies this
      ensures Valid() && word == old(word)
      ensures !old(state).Playing? || !old(state).phase.LookingForWord? ==>
        letters == old(letters) && state == old(state) && row == old(row)
      ensures old(state).Playing? && old(state).phase.LookingForWord? ==>
        var r, guess := old(state).phase.row, old(state).phase.guess;
        match Decide(word, r, guess, isWord)
        case WonGame =>
          state == Won && letters == ShowResults(old(letters), word, r, guess, LENGTH) && row == r
        case LostGame =>
          state == Lost && letters == ShowResults(old(letters), word, r, guess, LENGTH) && row == r
        case NextRow =>
          state == Playing(Idle) && row == r + 1 &&
          letters == Activated(ShowResults(old(letters), word, r, guess, LENGTH), r + 1)
        case StayIdle =>
          state == Playing(Idle) && letters == old(letters) && row == r
    {
      if state.Playing? && state.phase.LookingForWord? {
        var r, guess := state.phase.row, state.phase.guess;
        ScoreKeepsRows(letters, word, r, guess);
        match Decide(word, r, guess, isWord)
        case WonGame =>
          ShowRowResults(r, guess);
          state := Won;
        case LostGame =>
          ShowRowResults(r, guess);
          state := Lost;
        case NextRow =>
          ShowRowResults(r, guess);
          NextRowRows(letters, r);
          MoveToNextRow(r);
          state := Playing(Idle);
          row := r + 1;
        case StayIdle =>
          state := Playing(Idle);
      }
    }

    /** The lookup fails: back to idle, nothing scored. */
    method LookupFailed()
      requires Valid()
      modifies this
      ensures Valid() && word == old(word) && letters == old(letters) && row == old(row)
      ensures state == if old(state).Playing? && old(state).phase.LookingForWord? then Playing(Idle) else old(state)
    {
      if state.Playing? && state.phase.LookingForWord? {
        state := Playing(Idle);
      }
    }
  }
}
