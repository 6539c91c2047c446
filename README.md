# Wordle game engine, modelled in Dafny

This project models the game engine of the Android Wordle app: the activity
class `MainActivity` in `app/src/main/java/com/example/wordle/MainActivity.kt`.

The app shows three things:
- a 6 x 5 grid of text views, which holds the letters typed and their background colours;
- an on-screen keyboard, whose letter buttons are coloured as guesses are scored;
- a message line.

The state of a game is:
- the cursor (`row`, `col`, both 1-based; `col == 6` means the row is full);
- the secret `word` and the word list `WordleWords`;
- whether the backspace and enter buttons have been disabled.

The project has three modules, one per file:

- `evaluator.dfy` (module `Evaluator`) is the pure feedback logic of `gameState`.
  - `Counts` is the map that `countCharacterOccurrences` builds, and `CountCharacterOccurrences` is its loop.
  - `ExactPass` and `PresentPass` are `gameState`'s two loops, one iteration at a time (`ExactStep`, `PresentStep`).
  - `Feedback` is both passes together.
  - The lemmas state what the passes guarantee, and worked examples fix the outcome on concrete words.
- `engine.dfy` (module `Engine`) is the whole game as plain data.
  - `Snapshot` holds the grid, the key colours, the cursor, the secret, the list, the message and a `frozen` flag for the disabled buttons.
  - `Inv` is the invariant that holds between clicks.
  - Each handler is a transition function: `AfterLetter`, `AfterBackspace` and `AfterEnter`.
  - Lemmas describe the outcome of each click and of click sequences.
- `activity.dfy` (module `Activity`) is the class `MainActivity` itself.
  - It has the fields `row`, `col`, `word` and `wordleWords`.
  - The grid is two 6 x 5 arrays: cell texts and cell backgrounds.
  - It also has the key-colour map, the message and `frozen`.
  - Each handler is a method that updates these in place.
  - `gameState`'s two loops are `while` loops over the array and a mutable count map.
  - Every handler is proved to leave exactly the state that the matching `Engine` transition describes (`State() == AfterEnter(old(State()))`, …) and to preserve `Valid()`.

Where the code departs from its own comments, the model follows the code:
- **Second pass.** The file header (lines 20-21) says correct letters are shown green. The comment before `gameState` (lines 119-121) says the same of a character in its right position. The second loop (lines 141-149) does not skip cells the first loop coloured green, so a green cell whose letter still has count left is turned yellow. `Evaluator.GreenOverwrittenByYellow` shows this: secret `llama`, guess `lxlxx` gives yellow, gray, gray, gray, gray. What survives is that every exact match ends green or yellow (`Evaluator.Feedback`).

Two further behaviours of the code, modelled as written:
- **Keyboard colours.** A key's colour is whatever the last write to it was (lines 133, 138, 146), so it can go down as well as up. `Evaluator.KeyDowngraded` shows a green key turned yellow by a later guess.
- **Repeated letters.** For secret `apple` and guess `pppps`, the code gives gray, green, green, gray, gray (`Evaluator.SurplusLetters`). `apple` has two `p`s, so both in-place `p`s are green.

## Model

| member | source | states |
|---|---|---|
| Evaluator.CountsMeaning | app/src/main/java/com/example/wordle/MainActivity.kt:69-75 | the keys of the count map are exactly the characters of the string, and each value is that character's number of occurrences (its multiplicity) |
| Evaluator.CountsSumToLength | app/src/main/java/com/example/wordle/MainActivity.kt:69-75 | the values of the count map add up to the length of the string |
| Evaluator.CountCharacterOccurrences | app/src/main/java/com/example/wordle/MainActivity.kt:69-75 | the loop that adds one per character builds exactly the count map `Counts` |
| Evaluator.ExactPass | app/src/main/java/com/example/wordle/MainActivity.kt:129-140 | the first loop after n iterations keeps one colour per guess position |
| Evaluator.PresentPass | app/src/main/java/com/example/wordle/MainActivity.kt:141-149 | the second loop after n iterations keeps one colour per guess position |
| Evaluator.ExactPassCells | app/src/main/java/com/example/wordle/MainActivity.kt:129-140 | the first loop colours each visited cell green or gray, green exactly where guess and secret agree, and leaves unvisited cells alone |
| Evaluator.ExactPassGreensWithinPrefix | app/src/main/java/com/example/wordle/MainActivity.kt:129-140 | after n iterations of the first loop, the green cells of each letter number at most its occurrences among the first n letters of the secret |
| Evaluator.ExactMatchHasCount | app/src/main/java/com/example/wordle/MainActivity.kt:130-131 | when the first loop reaches a position where guess and secret agree, that letter's count is still positive, so the test on line 131 passes |
| Evaluator.ExactPassCounts | app/src/main/java/com/example/wordle/MainActivity.kt:128-140 | during the first loop no count goes negative, and each letter's count plus its green cells equals its number of occurrences in the secret |
| Evaluator.ExactPassGreensAreMatches | app/src/main/java/com/example/wordle/MainActivity.kt:129-140 | after n iterations of the first loop, the coloured cells of each letter are exactly the positions below n where guess and secret both hold it |
| Evaluator.ExactPassKeys | app/src/main/java/com/example/wordle/MainActivity.kt:129-140 | the first loop writes a key for exactly the visited letters, keeps the others, and a letter absent from the secret gets a gray key; the colour of the other written keys is stated by `ExactPassKeysFollowCells` |
| Evaluator.ExactPassKeysFollowCells | app/src/main/java/com/example/wordle/MainActivity.kt:129-140 | the first loop writes each key together with its cell, so after n iterations a letter's key has the colour of the last cell holding that letter |
| Evaluator.ExactPassFacts | app/src/main/java/com/example/wordle/MainActivity.kt:128-140 | the first loop's cell, count and key facts together, including green exactly on the exact matches |
| Evaluator.PresentPassCells | app/src/main/java/com/example/wordle/MainActivity.kt:141-149 | the second loop turns a visited cell yellow or leaves it, and leaves unvisited cells alone |
| Evaluator.PresentPassCounts | app/src/main/java/com/example/wordle/MainActivity.kt:141-149 | in the second loop counts stay non-negative and only decrease, and a letter's counts plus its green or yellow cells never exceed its occurrences in the secret; that each yellow cell takes exactly one count is stated by `PresentPassSpendsOnePerYellow` |
| Evaluator.PresentPassSpendsOnePerYellow | app/src/main/java/com/example/wordle/MainActivity.kt:141-149 | starting from a row with no yellow cell, each letter's remaining count plus its yellow cells equals its count before the loop: one count per yellow cell (line 147) |
| Evaluator.PresentPassYellowCount | app/src/main/java/com/example/wordle/MainActivity.kt:141-149 | starting from a row with no yellow cell and non-negative counts, the second loop leaves as many yellow cells of a letter as the smaller of its occurrences in the guess and its count before the loop |
| Evaluator.PresentPassKeys | app/src/main/java/com/example/wordle/MainActivity.kt:141-149 | a letter with no count left keeps its cells and key, no key is removed, and counts stay between zero and their start value; the yellow key written with a yellow cell is stated by `PresentPassKeysFollowCells` |
| Evaluator.PresentPassKeysFollowCells | app/src/main/java/com/example/wordle/MainActivity.kt:141-149 | starting from a row with no yellow cell, a letter with a yellow cell ends with a yellow key, and a letter none of whose cells turned yellow keeps its key |
| Evaluator.PresentPassUsesUpCounts | app/src/main/java/com/example/wordle/MainActivity.kt:141-149 | the second loop turns a visited cell yellow whenever its letter has count left: a visited cell that is not yellow belongs to a letter whose count is used up |
| Evaluator.PresentPassFacts | app/src/main/java/com/example/wordle/MainActivity.kt:141-149 | the second loop's cell and count facts together, given what the first loop left |
| Evaluator.NothingLeftForSecondPass | app/src/main/java/com/example/wordle/MainActivity.kt:141-149 | when no guessed letter has count left, the second loop leaves cells, keys and counts as the first loop left them |
| Evaluator.Feedback | app/src/main/java/com/example/wordle/MainActivity.kt:126-151 | after both loops every cell of the row is coloured; a cell is green only where the guess has the secret's letter; every exact match ends green or yellow; a cell ends green or gray only when its letter's count is used up, so while count is left the second loop turns it yellow; the number of yellow cells per letter is stated by `FeedbackYellowCount` |
| Evaluator.PassesColourEveryCell | app/src/main/java/com/example/wordle/MainActivity.kt:129-149 | the first loop leaves green or gray, the second only adds yellow, so no cell stays uncoloured |
| Evaluator.FeedbackWithinSecret | app/src/main/java/com/example/wordle/MainActivity.kt:126-151 | count entries never go negative; for each letter, the positions holding it that end green or yellow are at most its occurrences in the secret |
| Evaluator.AbsentLetterIsGray | app/src/main/java/com/example/wordle/MainActivity.kt:129-149 | a guessed letter that does not occur in the secret ends gray in its cell and on its key |
| Evaluator.FeedbackKeepsOtherKeys | app/src/main/java/com/example/wordle/MainActivity.kt:126-151 | keys are added for exactly the guessed letters; keys of letters not in the guess keep their colour |
| Evaluator.FeedbackKeysFollowCells | app/src/main/java/com/example/wordle/MainActivity.kt:126-151 | after both loops a guessed letter's key is yellow when some cell holding it ended yellow, and otherwise has the colour of the last cell holding it |
| Evaluator.FeedbackYellowCount | app/src/main/java/com/example/wordle/MainActivity.kt:126-151 | after both loops a letter has as many yellow cells as the smaller of its occurrences in the guess and its occurrences in the secret minus its exact matches |
| Evaluator.ExactPassOnSecret | app/src/main/java/com/example/wordle/MainActivity.kt:129-140 | when the guess is the secret, the first loop colours every visited position green, the green cells of each letter number its occurrences so far, and every key of those letters is green |
| Evaluator.FeedbackOnSecret | app/src/main/java/com/example/wordle/MainActivity.kt:126-151 | when the guess is the secret, all cells and every key of its letters end green |
| Evaluator.GreenOverwrittenByYellow | app/src/main/java/com/example/wordle/MainActivity.kt:141-149 | secret "llama", guess "lxlxx": the row ends yellow, gray, gray, gray, gray, because the second loop recolours the green cell |
| Evaluator.AllDisplaced | app/src/main/java/com/example/wordle/MainActivity.kt:126-151 | secret "crane", guess "acorn": yellow, yellow, gray, yellow, yellow |
| Evaluator.RepeatedLetters | app/src/main/java/com/example/wordle/MainActivity.kt:126-151 | secret "abbey", guess "babes": yellow, yellow, green, green, gray |
| Evaluator.SurplusLetters | app/src/main/java/com/example/wordle/MainActivity.kt:126-151 | secret "apple", guess "pppps": gray, green, green, gray, gray |
| Evaluator.DoubledLetterBothYellow | app/src/main/java/com/example/wordle/MainActivity.kt:141-149 | secret "aabcd", guess "xxaax": gray, gray, yellow, yellow, gray, the second loop taking one count for each `a` |
| Evaluator.KeyDowngraded | app/src/main/java/com/example/wordle/MainActivity.kt:133-146 | secret "bcdef": guess "bxxxx" makes key b green, then guess "xbxxx" makes it yellow |
| Engine.LegitGuess | app/src/main/java/com/example/wordle/MainActivity.kt:64 | a guess is legitimate exactly when some entry of the word list equals it |
| Engine.Lower | app/src/main/java/com/example/wordle/MainActivity.kt:175 | lower-casing maps A..Z to a..z and leaves every other character alone |
| Engine.RowText | app/src/main/java/com/example/wordle/MainActivity.kt:168-176 | the joined cell texts are no longer than the row, and on a full row they are the lower-cased letters, one per cell |
| Engine.Initial | app/src/main/java/com/example/wordle/MainActivity.kt:35-59 | the start state satisfies the invariant: cursor at row 1, column 1, buttons enabled, the secret is the list entry at the chosen index and is itself in the list |
| Engine.AfterLetter | app/src/main/java/com/example/wordle/MainActivity.kt:104-112 | a letter click preserves the game invariant |
| Engine.AfterBackspace | app/src/main/java/com/example/wordle/MainActivity.kt:90-93 | a backspace click preserves the game invariant |
| Engine.AfterEnter | app/src/main/java/com/example/wordle/MainActivity.kt:166-199 | an enter click preserves the game invariant |
| Engine.AfterClick | app/src/main/java/com/example/wordle/MainActivity.kt:78-81 | any click preserves the invariant; clicks on the disabled backspace and enter buttons are dropped |
| Engine.AfterClicks | app/src/main/java/com/example/wordle/MainActivity.kt:90-199 | any sequence of clicks preserves the invariant |
| Engine.LetterEffect | app/src/main/java/com/example/wordle/MainActivity.kt:104-112 | when col is at most 5, the letter goes into cell (row, col) and col grows by one; when the row is full nothing changes; col never exceeds 6; nothing else changes |
| Engine.BackspaceEffect | app/src/main/java/com/example/wordle/MainActivity.kt:90-93 | col decreases only when above 1 and never drops below 1; the cell at the new col is cleared; no other cell changes |
| Engine.BackspaceAtRowStart | app/src/main/java/com/example/wordle/MainActivity.kt:90-93 | backspace on the first cell of a row changes nothing |
| Engine.LetterThenBackspace | app/src/main/java/com/example/wordle/MainActivity.kt:90-112 | a letter click followed by a backspace on a row that is not full restores the whole state |
| Engine.EnterRejected | app/src/main/java/com/example/wordle/MainActivity.kt:166-179 | on an incomplete row ("Enter a Complete Word") or an unlisted word ("Not a word"), only the message changes |
| Engine.FullRowGuess | app/src/main/java/com/example/wordle/MainActivity.kt:168-176 | the guess read off a full row has five letters |
| Engine.EnterWins | app/src/main/java/com/example/wordle/MainActivity.kt:181-184 | a listed guess equal to the secret: "You win!", buttons disabled, cursor unchanged, the row and every key of its letters green |
| Engine.EnterLoses | app/src/main/java/com/example/wordle/MainActivity.kt:185-188 | a wrong listed guess on row 6: "The word was " followed by the secret, buttons disabled, row scored |
| Engine.EnterContinues | app/src/main/java/com/example/wordle/MainActivity.kt:189-194 | a wrong listed guess on rows 1-5: "It's a word", row + 1, col = 1, buttons enabled, row scored |
| Engine.EnterScoresOnlyActiveRow | app/src/main/java/com/example/wordle/MainActivity.kt:126-151 | scoring changes no letters and no other row, greens only where guess and secret agree, keys of letters outside the guess untouched |
| Engine.FrozenIsFinal | app/src/main/java/com/example/wordle/MainActivity.kt:78-81 | once the buttons are disabled, no sequence of clicks changes the state |
| Engine.CursorInRange | app/src/main/java/com/example/wordle/MainActivity.kt:29-30 | from the start of a game, after any clicks, row is in 1..6 and col in 1..6 |
| Engine.ClickKeepsSubmittedRows | app/src/main/java/com/example/wordle/MainActivity.kt:166-199 | a click never changes a submitted row, and the cursor moves down by at most one row |
| Activity.MainActivity.constructor | app/src/main/java/com/example/wordle/MainActivity.kt:35-42 | `onCreate` leaves exactly the start state `Initial` of the chosen index, which satisfies `Valid()` |
| Activity.MainActivity.SelectWord | app/src/main/java/com/example/wordle/MainActivity.kt:56-58 | stores the list, returns its entry at the random index, and that entry is in the list |
| Activity.MainActivity.DisableButtons | app/src/main/java/com/example/wordle/MainActivity.kt:78-81 | afterwards the backspace and enter buttons are disabled |
| Activity.MainActivity.LetterHandler | app/src/main/java/com/example/wordle/MainActivity.kt:104-112 | updates the grid and cursor in place to exactly `AfterLetter`, and keeps `Valid()` |
| Activity.MainActivity.BackspaceHandler | app/src/main/java/com/example/wordle/MainActivity.kt:90-93 | updates the grid and cursor in place to exactly `AfterBackspace`, and keeps `Valid()` |
| Activity.MainActivity.GameState | app/src/main/java/com/example/wordle/MainActivity.kt:126-151 | colours the active row and the keys to exactly `Feedback`; other rows are unchanged |
| Activity.MainActivity.MarkExact | app/src/main/java/com/example/wordle/MainActivity.kt:129-140 | the first loop leaves the row, keys and count map of `ExactPass` |
| Activity.MainActivity.MarkExactAt | app/src/main/java/com/example/wordle/MainActivity.kt:130-139 | one iteration of the first loop performs `ExactStep` on the array, the keys and the count map |
| Activity.MainActivity.MarkPresent | app/src/main/java/com/example/wordle/MainActivity.kt:141-149 | the second loop leaves the row and keys of `PresentPass` |
| Activity.MainActivity.MarkPresentAt | app/src/main/java/com/example/wordle/MainActivity.kt:142-148 | one iteration of the second loop performs `PresentStep` |
| Activity.MainActivity.ReadGuess | app/src/main/java/com/example/wordle/MainActivity.kt:168-176 | joins the lower-cased cell texts of the active row into `Guess`, which has five letters on a full row |
| Activity.MainActivity.EnterHandler | app/src/main/java/com/example/wordle/MainActivity.kt:166-199 | performs exactly `AfterEnter` in place, and keeps `Valid()` |
| Activity.MainActivity.Win | app/src/main/java/com/example/wordle/MainActivity.kt:181-184 | scores the row, sets "You win!" and disables the buttons |
| Activity.MainActivity.Lose | app/src/main/java/com/example/wordle/MainActivity.kt:185-188 | sets "The word was " followed by the secret, scores the row and disables the buttons |
| Activity.MainActivity.Advance | app/src/main/java/com/example/wordle/MainActivity.kt:189-194 | sets "It's a word", scores the row, and moves the cursor to the first cell of the next row |

## Left out

- Reading the word file and `Random.nextInt` (lines 49-56) are I/O and a foreign random source. The list and the random index are constructor parameters with `0 <= idx < |list|`.
- The Android lifecycle (`setContentView`), `Log.d`, and view and button lookup by string-built identifiers are left out. The model indexes the grid arrays and the key map directly.
- Drawables and `Color` values become the four-value `Colour` datatype. `Unset` stands for the default background.
- The unused `res` array and the empty string that `gameState` returns (lines 127, 150) are left out.
- The second `legitGuess` test at line 189 is not modelled. It is always true on that branch.
- Key colours are keyed by the guessed (lower-case) character. The app finds a key's button by the upper-cased character, which is the same key for the letters A to Z.
- Lower-casing (`toLowerCase`, line 175) is modelled for A to Z only. The on-screen keyboard produces only those letters; locale rules are not modelled.
- A clicked letter button's label is assumed to be one character, and a cell holds either nothing or that one letter.
- The constructor requires the chosen word to have at least five characters, so the model excludes shorter secrets. On a shorter secret the code plays on until a guessed letter past the secret's end still has count left: the test on line 131 checks the count first, and only then reads `word[i]` past the end and crashes. An empty secret (a blank line of the word file) and, for example, secret `cat` with guess `dough` never reach that read. The model does not represent these games or the crash.
- Disabled buttons: `BackspaceHandler` and `EnterHandler` require `!frozen`, because a disabled Android button delivers no click. `Engine.AfterClick` models the dropped click.
- Letter buttons are never disabled. Once the game is over the row is full, so `letterHandler` does nothing anyway.
- Android UI threading and redraw timing are not modelled. Clicks are handled one at a time, in order.
