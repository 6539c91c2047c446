/**
 * The activity itself: the handlers update the cursor fields, the grid of
 * text views (a 6 x 5 array of cell texts and one of cell backgrounds), the
 * keyboard colours, the message and the disabled-buttons flag in place.
 * Each method is proved to leave exactly the state the corresponding
 * transition of module Engine describes.
 */
module Activity {
  import opened Evaluator
  import opened Engine

  class MainActivity {
    var row: int
    var col: int
    var word: string
    var wordleWords: seq<string>
    /** The text of text view `textView<row><col>` is `letters[row - 1, col - 1]`. */
    const letters: array2<Slot>
    /** Its background. */
    const colours: array2<Colour>
    /** The background of each letter button that has been coloured. */
    var keys: map<char, Colour>
    var message: string
    /** The backspace and enter buttons are disabled. */
    var frozen: bool

    /** The contents of `letters` and `colours`, row by row. */
    ghost var lettersView: seq<seq<Slot>>
    ghost var coloursView: seq<seq<Colour>>

    /** The letters array has the grid's shape and `lettersView` holds its contents. */
    ghost predicate LettersSynced()
      reads this`lettersView, letters
    {
      && letters.Length0 == Rows && letters.Length1 == Cols
      && |lettersView| == Rows && (forall r | 0 <= r < Rows :: |lettersView[r]| == Cols)
      && (forall r, c | 0 <= r < Rows && 0 <= c < Cols :: letters[r, c] == lettersView[r][c])
    }

    /** The colours array has the grid's shape and `coloursView` holds its contents. */
    ghost predicate ColoursSynced()
      reads this`coloursView, colours
    {
      && colours.Length0 == Rows && colours.Length1 == Cols
      && |coloursView| == Rows && (forall r | 0 <= r < Rows :: |coloursView[r]| == Cols)
      && (forall r, c | 0 <= r < Rows && 0 <= c < Cols :: colours[r, c] == coloursView[r][c])
    }

    ghost predicate Synced()
      reads this`lettersView, this`coloursView, letters, colours
    {
      LettersSynced() && ColoursSynced()
    }

    /** The activity's state as plain data. */
    ghost function State(): Snapshot
      reads this
    {
      Snapshot(lettersView, coloursView, keys, row, col, word, wordleWords, message, frozen)
    }

    ghost predicate Valid()
      reads this, letters, colours
    {
      Synced() && Inv(State())
    }

    /**
     * `onCreate`, with the random index drawn by `selectWord` passed in:
     * blank grid and keyboard, cursor on the first cell, secret chosen.
     */
    constructor (wordList: seq<string>, idx: int)
      requires 0 <= idx < |wordList| && |wordList[idx]| >= Cols
      ensures Valid() && State() == Initial(wordList, idx)
    {
      letters := new Slot[Rows, Cols]((_, _) => Empty);
      colours := new Colour[Rows, Cols]((_, _) => Unset);
      lettersView, coloursView := BlankGrid(Empty), BlankGrid(Unset);
      keys := map[];
      row, col := 1, 1;
      frozen := false;
      new;
      word := SelectWord(wordList, idx);
      message := "The word is " + word;
      ghost var r := Initial(wordList, idx);
      assert Inv(r) && State() == r;
    }

    /** `selectWord`: keeps the list for `legitGuess` and returns its entry at the random index. */
    method SelectWord(wordList: seq<string>, idx: int) returns (w: string)
      requires 0 <= idx < |wordList|
      modifies this`wordleWords
      ensures wordleWords == wordList && w == wordList[idx] && LegitGuess(wordleWords, w)
    {
      wordleWords := wordList;
      w := wordList[idx];
    }

    /** `disableButtons`. */
    method DisableButtons()
      modifies this`frozen
      ensures frozen
    {
      frozen := true;
    }

    /** `letterHandler`. */
    method LetterHandler(ch: char)
      requires Valid()
      modifies this`col, this`lettersView, letters
      ensures Valid() && State() == AfterLetter(old(State()), ch)
    {
      ghost var g := State();
      if col <= 5 {
        letters[row - 1, col - 1] := Letter(ch);
        lettersView := lettersView[row - 1 := lettersView[row - 1][col - 1 := Letter(ch)]];
        col := col + 1;
      }
      ghost var r := AfterLetter(g, ch);
      assert Inv(r) && State() == r;
    }

    /** `backspaceHandler`; the button is disabled once the game is over. */
    method BackspaceHandler()
      requires Valid() && !frozen
      modifies this`col, this`lettersView, letters
      ensures Valid() && State() == AfterBackspace(old(State()))
    {
      ghost var g := State();
      col := if col > 1 then col - 1 else col;
      letters[row - 1, col - 1] := Empty;
      lettersView := lettersView[row - 1 := lettersView[row - 1][col - 1 := Empty]];
      ghost var r := AfterBackspace(g);
      assert Inv(r) && State() == r;
    }

    /**
     * `gameState`: colours the active row and the keys of the guessed
     * letters, first exact matches green and the rest gray, then yellow
     * wherever the letter still has count left.
     */
    method GameState(guess: string, secret: string)
      requires Synced() && 1 <= row <= Rows && |guess| == Cols <= |secret|
      modifies colours, this`coloursView, this`keys
      ensures Synced()
      ensures var fb := Feedback(guess, secret, old(coloursView)[row - 1], old(keys));
        coloursView == old(coloursView)[row - 1 := fb.cells] && keys == fb.keys
    {
      ghost var before, keys0 := coloursView, keys;
      ghost var m1 := ExactPass(guess, secret, before[row - 1], keys0, |guess|);
      var countMap := CountCharacterOccurrences(secret);
      countMap := MarkExact(guess, secret, countMap);
      assert Marks(countMap, coloursView[row - 1], keys) == m1;
      MarkPresent(guess, countMap);
      ghost var fb := PresentPass(guess, m1, |guess|);
      assert fb == Feedback(guess, secret, before[row - 1], keys0);
      assert coloursView == before[row - 1 := fb.cells];
    }

    /** Row `k` of the colours array holds `cells`. */
    ghost predicate RowIs(k: int, cells: seq<Colour>)
      reads colours
    {
      0 <= k < colours.Length0 && |cells| == colours.Length1
      && forall c | 0 <= c < colours.Length1 :: colours[k, c] == cells[c]
    }

    /** Every row of the colours array other than row `k` holds the matching row of `grid`. */
    ghost predicate OtherRowsAre(k: int, grid: seq<seq<Colour>>)
      reads colours
    {
      |grid| == colours.Length0 && (forall r | 0 <= r < |grid| :: |grid[r]| == colours.Length1)
      && forall r, c | 0 <= r < colours.Length0 && r != k && 0 <= c < colours.Length1 :: colours[r, c] == grid[r][c]
    }

    /**
     * The first loop of `gameState`, over the counts of the secret: an exact
     * match with count left turns green and uses up one count, any other
     * position turns gray.
     */
    method MarkExact(guess: string, secret: string, countMap0: map<char, int>) returns (countMap: map<char, int>)
      requires ColoursSynced() && 1 <= row <= Rows && |guess| == Cols <= |secret| && countMap0 == Counts(secret)
      modifies colours, this`coloursView, this`keys
      ensures ColoursSynced()
      ensures var m := ExactPass(guess, secret, old(coloursView)[row - 1], old(keys), |guess|);
        countMap == m.counts && keys == m.keys && coloursView == old(coloursView)[row - 1 := m.cells]
    {
      var k := row - 1;
      ghost var before := coloursView;
      ghost var cells0, keys0 := before[k], keys;
      countMap := countMap0;
      ghost var m := Marks(countMap, cells0, keys0);
      var i := 0;
      while i < |guess|
        invariant 0 <= i <= |guess| && m == ExactPass(guess, secret, cells0, keys0, i)
        invariant countMap == m.counts && keys == m.keys
        invariant RowIs(k, m.cells) && OtherRowsAre(k, before)
      {
        countMap := MarkExactAt(guess, secret, k, i, countMap, m, before);
        m := ExactStep(m, guess, secret, i);
        i := i + 1;
      }
      assert cells0 == old(coloursView)[row - 1] && keys0 == old(keys);
      coloursView := before[k := m.cells];
    }

    /** One iteration of the first loop of `gameState`, at position `i` of the active row. */
    method MarkExactAt(guess: string, secret: string, k: int, i: int, countMap: map<char, int>, ghost m: Marks, ghost grid: seq<seq<Colour>>)
      returns (countMap': map<char, int>)
      requires 0 <= i < |guess| <= |secret| && i < colours.Length1
      requires RowIs(k, m.cells) && OtherRowsAre(k, grid)
      requires countMap == m.counts && keys == m.keys
      modifies colours, this`keys
      ensures var m' := ExactStep(m, guess, secret, i);
        countMap' == m'.counts && keys == m'.keys && RowIs(k, m'.cells) && OtherRowsAre(k, grid)
    {
      var count := Get(countMap, guess[i]);
      if count > 0 && secret[i] == guess[i] {
        colours[k, i] := Green;
        keys := keys[guess[i] := Green];
        countMap' := countMap[guess[i] := count - 1];
      } else {
        colours[k, i] := Gray;
        keys := keys[guess[i] := Gray];
        countMap' := countMap;
      }
    }

    /**
     * The second loop of `gameState`, over the counts the first loop left:
     * any position whose letter still has count left turns yellow and uses
     * up one count.
     */
    method MarkPresent(guess: string, countMap0: map<char, int>)
      requires ColoursSynced() && 1 <= row <= Rows && |guess| == Cols
      modifies colours, this`coloursView, this`keys
      ensures ColoursSynced()
      ensures var m := PresentPass(guess, Marks(countMap0, old(coloursView)[row - 1], old(keys)), |guess|);
        keys == m.keys && coloursView == old(coloursView)[row - 1 := m.cells]
    {
      var k := row - 1;
      ghost var before := coloursView;
      ghost var m0 := Marks(countMap0, before[k], keys);
      ghost var m := m0;
      var countMap := countMap0;
      var i := 0;
      while i < |guess|
        invariant 0 <= i <= |guess| && m == PresentPass(guess, m0, i)
        invariant countMap == m.counts && keys == m.keys
        invariant RowIs(k, m.cells) && OtherRowsAre(k, before)
      {
        countMap := MarkPresentAt(guess, k, i, countMap, m, before);
        m := PresentStep(m, guess, i);
        i := i + 1;
      }
      assert m0 == Marks(countMap0, old(coloursView)[row - 1], old(keys));
      coloursView := before[k := m.cells];
    }

    /** One iteration of the second loop of `gameState`, at position `i` of the active row. */
    method MarkPresentAt(guess: string, k: int, i: int, countMap: map<char, int>, ghost m: Marks, ghost grid: seq<seq<Colour>>)
      returns (countMap': map<char, int>)
      requires 0 <= i < |guess| && i < colours.Length1
      requires RowIs(k, m.cells) && OtherRowsAre(k, grid)
      requires countMap == m.counts && keys == m.keys
      modifies colours, this`keys
      ensures var m' := PresentStep(m, guess, i);
        countMap' == m'.counts && keys == m'.keys && RowIs(k, m'.cells) && OtherRowsAre(k, grid)
    {
      var count := Get(countMap, guess[i]);
      if count > 0 {
        colours[k, i] := Yellow;
        keys := keys[guess[i] := Yellow];
        countMap' := countMap[guess[i] := count - 1];
      } else {
        countMap' := countMap;
      }
    }

    /**
     * The guess assembled from the texts of the active row's cells,
     * lower-cased, as the start of `enterHandler` reads it.
     */
    method ReadGuess() returns (guessedWord: string)
      requires Valid()
      ensures guessedWord == Guess(State())
      ensures col == Cols + 1 ==> |guessedWord| == Cols
    {
      ghost var cells := RowOf(lettersView, row);
      guessedWord := "";
      var j := 0;
      while j < Cols
        invariant 0 <= j <= Cols
        invariant guessedWord == RowText(cells[..j])
      {
        assert cells[..j + 1][..j] == cells[..j];
        guessedWord := guessedWord + CellText(letters[row - 1, j]);
        j := j + 1;
      }
      assert cells[..Cols] == cells;
    }

    /** `enterHandler`; the button is disabled once the game is over. */
    method EnterHandler()
      requires Valid() && !frozen
      modifies this, colours
      ensures Valid() && State() == AfterEnter(old(State()))
    {
      ghost var g := State();
      if col == 6 {
        var guessedWord := ReadGuess();
        if !LegitGuess(wordleWords, guessedWord) {
          message := "Not a word";
        } else if guessedWord == word {
          Win(guessedWord);
        } else if row == 6 {
          Lose(guessedWord);
        } else {
          Advance(guessedWord);
        }
      } else {
        message := "Enter a Complete Word";
      }
      ghost var r := AfterEnter(g);
      assert Inv(r) && State() == r;
    }

    /** The guess is the secret: score the row, announce the win and disable the buttons. */
    method Win(guessedWord: string)
      requires Synced() && 1 <= row <= Rows && |guessedWord| == Cols <= |word|
      modifies this`message, this`frozen, this`coloursView, this`keys, colours
      ensures Synced() && State() == Scored(old(State()), guessedWord).(message := "You win!", frozen := true)
    {
      ghost var g := State();
      GameState(guessedWord, word);
      assert State() == Scored(g, guessedWord);
      message := "You win!";
      DisableButtons();
    }

    /** A wrong guess on the sixth row: reveal the secret, score the row and disable the buttons. */
    method Lose(guessedWord: string)
      requires Synced() && 1 <= row <= Rows && |guessedWord| == Cols <= |word|
      modifies this`message, this`frozen, this`coloursView, this`keys, colours
      ensures Synced() && State() == Scored(old(State()), guessedWord).(message := "The word was " + word, frozen := true)
    {
      ghost var g := State();
      message := "The word was " + word;
      GameState(guessedWord, word);
      assert State() == Scored(g, guessedWord).(message := "The word was " + word);
      DisableButtons();
    }

    /** A wrong guess on an earlier row: score the row and move the cursor to the next row. */
    method Advance(guessedWord: string)
      requires Synced() && 1 <= row <= Rows && |guessedWord| == Cols <= |word|
      modifies this`message, this`row, this`col, this`coloursView, this`keys, colours
      ensures Synced() && State() == Scored(old(State()), guessedWord).(message := "It's a word", row := old(row) + 1, col := 1)
    {
      ghost var g := State();
      message := "It's a word";
      GameState(guessedWord, word);
      assert State() == Scored(g, guessedWord).(message := "It's a word");
      row := row + 1;
      col := 1;
    }
  }
}
