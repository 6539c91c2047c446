/**
 * The game engine of the activity as plain data: the 6 x 5 grid of letters
 * and cell colours, the keyboard colours, the cursor (`row`, `col`), the
 * secret word and word list, the status message and whether the backspace
 * and enter buttons are disabled. Each click handler is a function from the
 * state before the click to the state after it; the class in module
 * Activity is proved to perform exactly these transitions in place.
 */
module Engine {
  import opened Evaluator

  const Rows := 6
  const Cols := 5

  /** The text of a grid cell: empty, or the one-character label of the letter button pressed. */
  datatype Slot = Empty | Letter(ch: char)

  /**
   * Everything the handlers read or write. `row` and `col` are 1-based as in
   * the activity; `col == 6` means the row is full. `frozen` stands for the
   * disabled backspace and enter buttons.
   */
  datatype Snapshot = Snapshot(
    letters: seq<seq<Slot>>,
    colours: seq<seq<Colour>>,
    keys: map<char, Colour>,
    row: int,
    col: int,
    word: string,
    words: seq<string>,
    message: string,
    frozen: bool)

  // ---------------------------------------------------------------------------
  // Dictionary
  // ---------------------------------------------------------------------------

  /** `legitGuess`: the guess is, character for character, an entry of the word list. */
  function LegitGuess(words: seq<string>, guess: string): (r: bool)
    ensures r <==> exists i | 0 <= i < |words| :: words[i] == guess
  {
    guess in words
  }

  // ---------------------------------------------------------------------------
  // Reading the guess off the grid
  // ---------------------------------------------------------------------------

  /** Lower-casing of one character, for the letters A to Z. */
  function Lower(c: char): (r: char)
    ensures 'A' <= c <= 'Z' ==> 'a' <= r <= 'z' && r as int - c as int == 'a' as int - 'A' as int
    ensures !('A' <= c <= 'Z') ==> r == c
  {
    if 'A' <= c <= 'Z' then (c as int - 'A' as int + 'a' as int) as char else c
  }

  /** The lower-cased text of one cell. */
  function CellText(s: Slot): string
  {
    match s
    case Empty => ""
    case Letter(ch) => [Lower(ch)]
  }

  /**
   * The texts of a row's cells joined together: on a full row, the
   * lower-cased letters, one per cell.
   */
  function RowText(cells: seq<Slot>): (w: string)
    ensures |w| <= |cells|
    ensures (forall j | 0 <= j < |cells| :: cells[j] != Empty) ==>
              |w| == |cells| && forall j | 0 <= j < |cells| :: w[j] == Lower(cells[j].ch)
  {
    if cells == [] then ""
    else RowText(cells[..|cells| - 1]) + CellText(cells[|cells| - 1])
  }

  /** Row number `row` (counted from 1) of a grid. */
  function RowOf<T>(grid: seq<seq<T>>, row: int): seq<T>
    requires 1 <= row <= |grid|
  {
    grid[row - 1]
  }

  /** The word written in the active row. */
  function Guess(g: Snapshot): string
    requires 1 <= g.row <= |g.letters|
  {
    RowText(RowOf(g.letters, g.row))
  }

  // ---------------------------------------------------------------------------
  // The invariant of a game
  // ---------------------------------------------------------------------------

  /**
   * What holds between clicks: the cursor is inside the grid, the active row
   * holds letters exactly left of the cursor, later rows are blank, earlier
   * rows are full and coloured, the active row is coloured exactly when the
   * buttons are disabled, and the buttons are disabled only on a full row
   * that won or is the last one.
   */
  ghost predicate Inv(g: Snapshot)
  {
    && |g.letters| == Rows && (forall r | 0 <= r < Rows :: |g.letters[r]| == Cols)
    && |g.colours| == Rows && (forall r | 0 <= r < Rows :: |g.colours[r]| == Cols)
    && 1 <= g.row <= Rows
    && 1 <= g.col <= Cols + 1
    && |g.word| >= Cols
    && (forall c | 0 <= c < Cols :: (RowOf(g.letters, g.row)[c] == Empty <==> c >= g.col - 1))
    && (forall r, c | g.row <= r < Rows && 0 <= c < Cols :: g.letters[r][c] == Empty && g.colours[r][c] == Unset)
    && (forall r, c | 0 <= r < g.row - 1 && 0 <= c < Cols :: g.letters[r][c] != Empty && g.colours[r][c] != Unset)
    && (forall c | 0 <= c < Cols :: (RowOf(g.colours, g.row)[c] == Unset <==> !g.frozen))
    && (g.frozen ==> g.col == Cols + 1 && (Guess(g) == g.word || g.row == Rows))
  }

  function BlankGrid<T>(x: T): (grid: seq<seq<T>>)
    ensures |grid| == Rows && forall r | 0 <= r < Rows :: grid[r] == seq(Cols, _ => x)
  {
    seq(Rows, _ => seq(Cols, _ => x))
  }

  /**
   * The state `onCreate` leaves: the word at the chosen index of the list,
   * the list kept for `legitGuess`, a blank grid and keyboard, the cursor at
   * the first cell, and the secret shown in the message.
   */
  function Initial(wordList: seq<string>, idx: int): (g: Snapshot)
    requires 0 <= idx < |wordList| && |wordList[idx]| >= Cols
    ensures Inv(g) && g.row == 1 && g.col == 1 && !g.frozen
    ensures g.word == wordList[idx] && LegitGuess(g.words, g.word)
  {
    var word := wordList[idx];
    Snapshot(BlankGrid(Empty), BlankGrid(Unset), map[], 1, 1, word, wordList,
             "The word is " + word, false)
  }

  // ---------------------------------------------------------------------------
  // The three click handlers
  // ---------------------------------------------------------------------------

  /** `letterHandler`: on a row that is not full, write the letter at the cursor and move right. */
  function AfterLetter(g: Snapshot, ch: char): (r: Snapshot)
    requires Inv(g)
    ensures Inv(r)
  {
    if g.col <= Cols then
      var r := g.(letters := g.letters[g.row - 1 := RowOf(g.letters, g.row)[g.col - 1 := Letter(ch)]],
                  col := g.col + 1);
      assert RowOf(r.letters, r.row) == RowOf(g.letters, g.row)[g.col - 1 := Letter(ch)];
      r
    else
      g
  }

  /**
   * `backspaceHandler`: move left unless at the first cell, then clear the
   * cell under the cursor. Only reachable while the button is enabled.
   */
  function AfterBackspace(g: Snapshot): (r: Snapshot)
    requires Inv(g) && !g.frozen
    ensures Inv(r)
  {
    var col := if g.col > 1 then g.col - 1 else g.col;
    var r := g.(col := col, letters := g.letters[g.row - 1 := RowOf(g.letters, g.row)[col - 1 := Empty]]);
    assert RowOf(r.letters, r.row) == RowOf(g.letters, g.row)[col - 1 := Empty];
    r
  }

  /** The state after `gameState` has coloured the active row and the keyboard for `guess`. */
  function Scored(g: Snapshot, guess: string): (r: Snapshot)
    requires 1 <= g.row <= |g.colours| && |RowOf(g.colours, g.row)| == |guess| <= |g.word|
  {
    var fb := Feedback(guess, g.word, g.colours[g.row - 1], g.keys);
    g.(colours := g.colours[g.row - 1 := fb.cells], keys := fb.keys)
  }

  /**
   * `enterHandler`: an incomplete row or a word not in the list only sets
   * the message; otherwise the row is scored and the game is won, lost on
   * the sixth row, or continues on the next row. Only reachable while the
   * button is enabled.
   */
  function AfterEnter(g: Snapshot): (r: Snapshot)
    requires Inv(g) && !g.frozen
    ensures Inv(r)
  {
    if g.col != Cols + 1 then
      g.(message := "Enter a Complete Word")
    else
      var guess := Guess(g);
      if !LegitGuess(g.words, guess) then
        g.(message := "Not a word")
      else
        var s := Scored(g, guess);
        if guess == g.word then
          s.(message := "You win!", frozen := true)
        else if g.row == Rows then
          s.(message := "The word was " + g.word, frozen := true)
        else
          s.(message := "It's a word", row := g.row + 1, col := 1)
  }

  // ---------------------------------------------------------------------------
  // Clicks
  // ---------------------------------------------------------------------------

  /** A button of the on-screen keyboard. */
  datatype Press = LetterKey(ch: char) | BackKey | EnterKey

  /**
   * One click: letter buttons are never disabled; a click on the disabled
   * backspace or enter button is dropped.
   */
  function AfterClick(g: Snapshot, p: Press): (r: Snapshot)
    requires Inv(g)
    ensures Inv(r)
  {
    match p
    case LetterKey(ch) => AfterLetter(g, ch)
    case BackKey => if g.frozen then g else AfterBackspace(g)
    case EnterKey => if g.frozen then g else AfterEnter(g)
  }

  /** A sequence of clicks, in order. */
  function AfterClicks(g: Snapshot, ps: seq<Press>): (r: Snapshot)
    requires Inv(g)
    ensures Inv(r)
    decreases |ps|
  {
    if ps == [] then g else AfterClicks(AfterClick(g, ps[0]), ps[1..])
  }

  // ---------------------------------------------------------------------------
  // Properties of the handlers
  // ---------------------------------------------------------------------------

  /**
   * A letter click writes only the cell under the cursor and moves the
   * cursor one step right, never past 6; on a full row it changes nothing.
   */
  lemma LetterEffect(g: Snapshot, ch: char)
    requires Inv(g)
    ensures var r := AfterLetter(g, ch);
      && r.col == (if g.col <= Cols then g.col + 1 else g.col) <= Cols + 1
      && r.(letters := g.letters, col := g.col) == g
      && (forall i, j | 0 <= i < Rows && 0 <= j < Cols && (i != g.row - 1 || j != g.col - 1) ::
            r.letters[i][j] == g.letters[i][j])
      && (g.col <= Cols ==> RowOf(r.letters, g.row)[g.col - 1] == Letter(ch))
  {
  }

  /**
   * A backspace click moves the cursor one step left unless it is on the
   * first cell, empties the cell it lands on and changes no other cell.
   */
  lemma BackspaceEffect(g: Snapshot)
    requires Inv(g) && !g.frozen
    ensures var r := AfterBackspace(g);
      && r.col == (if g.col > 1 then g.col - 1 else 1) >= 1
      && r.(letters := g.letters, col := g.col) == g
      && RowOf(r.letters, g.row)[r.col - 1] == Empty
      && (forall i, j | 0 <= i < Rows && 0 <= j < Cols && (i != g.row - 1 || j != r.col - 1) ::
            r.letters[i][j] == g.letters[i][j])
  {
  }

  /** Backspace on the first cell of a row changes nothing: that cell is already empty. */
  lemma BackspaceAtRowStart(g: Snapshot)
    requires Inv(g) && !g.frozen && g.col == 1
    ensures AfterBackspace(g) == g
  {
    assert RowOf(g.letters, g.row)[0] == Empty;
    assert RowOf(g.letters, g.row)[0 := Empty] == RowOf(g.letters, g.row);
    assert g.letters[g.row - 1 := RowOf(g.letters, g.row)] == g.letters;
  }

  /** A letter followed by a backspace on a row that is not full restores the state. */
  lemma LetterThenBackspace(g: Snapshot, ch: char)
    requires Inv(g) && g.col <= Cols
    ensures !AfterLetter(g, ch).frozen && AfterBackspace(AfterLetter(g, ch)) == g
  {
    var t := AfterLetter(g, ch);
    var row := RowOf(g.letters, g.row);
    assert row[g.col - 1] == Empty;
    assert t.letters == g.letters[g.row - 1 := row[g.col - 1 := Letter(ch)]];
    assert row[g.col - 1 := Letter(ch)][g.col - 1 := Empty] == row;
    assert g.letters[g.row - 1 := row] == g.letters;
  }

  /**
   * Enter on an incomplete row, or on a full row whose lower-cased word is
   * not in the list, only sets the message.
   */
  lemma EnterRejected(g: Snapshot)
    requires Inv(g) && !g.frozen
    requires g.col != Cols + 1 || !LegitGuess(g.words, Guess(g))
    ensures var r := AfterEnter(g);
      && r.(message := g.message) == g
      && r.message == if g.col != Cols + 1 then "Enter a Complete Word" else "Not a word"
  {
  }

  /** The guess read off a full active row has five letters. */
  lemma FullRowGuess(g: Snapshot)
    requires Inv(g) && g.col == Cols + 1
    ensures |Guess(g)| == Cols
  {
  }

  /**
   * Enter on a full row holding the secret: every cell of the row and the
   * key of every letter of the word turn green, the message is "You win!"
   * and the backspace and enter buttons are disabled; the cursor stays.
   */
  lemma EnterWins(g: Snapshot)
    requires Inv(g) && !g.frozen && g.col == Cols + 1
    requires LegitGuess(g.words, Guess(g)) && Guess(g) == g.word
    ensures var r := AfterEnter(g);
      && r.frozen && r.message == "You win!"
      && r.row == g.row && r.col == g.col
      && (forall j | 0 <= j < Cols :: RowOf(r.colours, g.row)[j] == Green)
      && (forall c | c in g.word :: c in r.keys && r.keys[c] == Green)
  {
    FullRowGuess(g);
    FeedbackOnSecret(g.word, g.colours[g.row - 1], g.keys);
  }

  /**
   * Enter on a full sixth row holding a listed word other than the secret:
   * the row is scored, the secret is revealed and the buttons are disabled.
   */
  lemma EnterLoses(g: Snapshot)
    requires Inv(g) && !g.frozen && g.col == Cols + 1 && g.row == Rows
    requires LegitGuess(g.words, Guess(g)) && Guess(g) != g.word
    ensures var r := AfterEnter(g);
      && r.frozen && r.message == "The word was " + g.word
      && r.row == g.row && r.col == g.col
      && (forall j | 0 <= j < Cols :: RowOf(r.colours, g.row)[j] != Unset)
  {
  }

  /**
   * Enter on a full row before the sixth holding a listed word other than
   * the secret: the row is scored, the message is "It's a word" and the
   * cursor moves to the first cell of the next row.
   */
  lemma EnterContinues(g: Snapshot)
    requires Inv(g) && !g.frozen && g.col == Cols + 1 && g.row < Rows
    requires LegitGuess(g.words, Guess(g)) && Guess(g) != g.word
    ensures var r := AfterEnter(g);
      && !r.frozen && r.message == "It's a word"
      && r.row == g.row + 1 && r.col == 1
      && (forall j | 0 <= j < Cols :: RowOf(r.colours, g.row)[j] != Unset)
  {
  }

  /**
   * Scoring a guess colours only the active row, a cell green only where the
   * guess has the secret's letter, and leaves the keys of letters outside
   * the guess alone.
   */
  lemma EnterScoresOnlyActiveRow(g: Snapshot)
    requires Inv(g) && !g.frozen && g.col == Cols + 1 && LegitGuess(g.words, Guess(g))
    ensures var r := AfterEnter(g);
      && r.letters == g.letters
      && (forall i | 0 <= i < Rows && i != g.row - 1 :: r.colours[i] == g.colours[i])
      && (forall j | 0 <= j < Cols && RowOf(r.colours, g.row)[j] == Green :: Guess(g)[j] == g.word[j])
      && (forall c | c in g.keys && c !in Guess(g) :: c in r.keys && r.keys[c] == g.keys[c])
  {
    FullRowGuess(g);
    FeedbackKeepsOtherKeys(Guess(g), g.word, g.colours[g.row - 1], g.keys);
  }

  /** Once the buttons are disabled, no sequence of clicks changes anything. */
  lemma {:induction false} FrozenIsFinal(g: Snapshot, ps: seq<Press>)
    requires Inv(g) && g.frozen
    ensures AfterClicks(g, ps) == g
    decreases |ps|
  {
    if ps != [] {
      assert AfterClick(g, ps[0]) == g;
      FrozenIsFinal(g, ps[1..]);
    }
  }

  /** From the start of a game, whatever is clicked, `row` stays in 1..6 and `col` in 1..6. */
  lemma CursorInRange(wordList: seq<string>, idx: int, ps: seq<Press>)
    requires 0 <= idx < |wordList| && |wordList[idx]| >= Cols
    ensures var r := AfterClicks(Initial(wordList, idx), ps);
      1 <= r.row <= Rows && 1 <= r.col <= Cols + 1
  {
  }

  /** A click never changes a submitted row and moves the cursor down by at most one row. */
  lemma ClickKeepsSubmittedRows(g: Snapshot, p: Press)
    requires Inv(g)
    ensures var r := AfterClick(g, p);
      && g.row <= r.row <= g.row + 1
      && (forall i | 0 <= i < g.row - 1 :: r.letters[i] == g.letters[i] && r.colours[i] == g.colours[i])
  {
  }
}
