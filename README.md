# Assembly: Endgame — a verified model of the game logic

The game is a hangman variant. The player guesses letters of a hidden
lowercase word. Each wrong guess costs one programming language from a
catalog of `n` languages, and `n - 1` wrong guesses lose the game. The
single React component `AssemblyEndgame` (App.tsx) owns two pieces of state:
the current word and the ordered list of guessed letters. Everything else is
recomputed from those two on every render. This project models that
component in Dafny:

- `Util` (util.dfy) holds sequence helpers: `Option`, duplicate-freedom
  (`NoDup`), the element set (`Elems`), `CountTrue`, the substring test
  `HasSubstring`, and `Join` (the JavaScript `Array.prototype.join`) with
  `Split`. `Split` undoes `Join` only on a non-empty list of parts none of
  which contains the separator (`SplitJoin`). `Join(["a b"], ' ')` splits
  into `["a", "b"]`.
- `Endgame` (endgame.dfy) holds the derived values: the wrong letters and
  their count, won, lost, over, the last guess and the guesses left. It also
  holds the list updater that `addGuessedLetter` passes to the state setter,
  and a fold of that updater over a series of clicks.
- `View` (view.dfy) holds the decision for each slot: the language chips, the
  word board, the keyboard keys, the status region, the attempts banner and
  the screen-reader live region.
- `GameState` (game.dfy) holds the class `Game`. Its fields are `word` and
  `guessed`, plus the catalog length `n` as a constant. `Guess` models
  `addGuessedLetter` and `NewGame` models `startNewGame`. `Valid()` is the
  invariant of every reachable state:
  - the guesses are distinct keyboard letters;
  - the wrong count never passes `n - 1`;
  - the game is never both won and lost, except for an empty word with a
    single language.

  The class is followed by two scenario methods, one lost game and one won
  game, that use only the class contracts.

Inputs taken as parameters:
- The word source (`getRandomWord`) is not part of this model. The first
  word is a constructor argument and each next word is an argument to
  `NewGame`.
- The language catalog (`languages`) is not part of this model either. Only
  its length `n >= 1` matters to the logic.
- `Guess` has two preconditions:
  - the game is not over;
  - the letter is a keyboard letter.

  `addGuessedLetter` itself checks neither. Its only callers are the keyboard
  buttons, which are `disabled={isGameOver}` (App.tsx:112) and carry only
  the letters `a`–`z` (App.tsx:28, 99-119). The preconditions model that
  guard.
- The source tests letters with `String.prototype.includes`, which matches
  substrings. Guessed letters are always single characters, so the model
  uses sequence membership (`c in word`).

## Model

| member | source | states |
|---|---|---|
| `Endgame.AddGuessedLetter` | App.tsx:30-36 | the new list contains the letter and starts with the old list. It has the same length exactly when the letter was already guessed, and grows by at most one. Its element set is the old set plus the letter, and duplicate-freedom is kept |
| `Endgame.WrongLetters` | App.tsx:18-19 | a letter is in the filtered list iff it was guessed and is not in the word. The list is no longer than the guesses and is duplicate-free when the guesses are |
| `Endgame.WrongGuessCount` | App.tsx:18-19 | the count is at most the number of guesses. It is zero iff every guessed letter is in the word |
| `Endgame.IsGameWon` | App.tsx:20-21 | the recursive `every` holds iff every position of the word holds a guessed letter, iff the word's letter set is contained in the guessed set |
| `Endgame.IsGameLost` | App.tsx:22 | this is the definition, wrong count at least `n - 1`. Its contract adds that a single-language catalog is lost from the start and that losing takes at least `n - 1` guesses. `Endgame.GameLostByDistinctWrongLetters` restates it over distinct letters |
| `Endgame.IsGameOver` | App.tsx:23 | this is the definition, won or lost. Its contract adds that won implies over, and that while not over a life is left and some letter of the word is unguessed. `Endgame.GuessKeepsWonAndLostApart` relies on it |
| `Endgame.IsLastGuessIncorrect` | App.tsx:25 | this is the definition on the last guess. Its contract says it holds iff there is a last guess and that letter is among the filtered wrong letters. `Endgame.LastGuessIncorrectIsCounted` builds on it |
| `Endgame.LastGuessedLetter` | App.tsx:24 | the result is absent iff nothing has been guessed. Otherwise it is the element that ends the list |
| `Endgame.RemainingGuesses` | App.tsx:212-214 | the guesses left are at most `n - 1`. They are at most zero iff the game is lost, and at least one while the game is not over |
| `Endgame.ApplyGuesses` | App.tsx:30-36 | a series of clicks extends the list. The elements become the union of the old list and the clicked letters, and duplicate-freedom is kept. A single click is one `AddGuessedLetter`; with `Endgame.ApplyGuessesAppend`, clicks apply in their order |
| `Endgame.WrongGuessCountAppend` | App.tsx:18-19 | appending a letter appends it to the wrong letters iff it is not in the word, so the count goes up by exactly that one |
| `Endgame.WrongGuessCountDistinct` | App.tsx:18-19 | on a duplicate-free list, the count is the number of distinct guessed letters absent from the word |
| `Endgame.GameLostByDistinctWrongLetters` | App.tsx:17-22 | lost iff at least `n - 1` distinct guessed letters are absent from the word |
| `Endgame.LastGuessIncorrectIsCounted` | App.tsx:24-25 | an incorrect last guess implies a wrong count of at least one |
| `Endgame.GuessKeepsWonAndLostApart` | App.tsx:20-23 | a guess made while the game is not over never makes it won and lost at once |
| `Endgame.GuessStaysWithinLives` | App.tsx:17-22 | a guess made while the game is not over raises the wrong count by at most one and leaves it at most `n - 1` |
| `Endgame.NewGameIsInPlay` | App.tsx:38-41 | after a new game with a non-empty word and `n >= 2`, the game is neither won nor lost. The count is 0 and `n - 1` guesses are left |
| `Endgame.ReguessingChangesNothing` | App.tsx:30-36 | clicking only letters that were already guessed leaves the list unchanged |
| `Endgame.ApplyGuessesAppend` | App.tsx:30-36 | clicking `a` then `b` is the same as clicking `a + b` |
| `Endgame.GuessingTwiceIsGuessingOnce` | App.tsx:30-36 | repeating a series of clicks changes nothing (idempotence) |
| `Endgame.WrongGuessCountOfClicks` | App.tsx:18-19 | for every series of clicks from an empty list, the count is the number of distinct clicked letters absent from the word |
| `View.LanguageChips` | App.tsx:69-70 | one flag per catalog entry. Entry `i` is lost iff `i < wrongGuessCount` |
| `View.LostChipCount` | App.tsx:69-70 | exactly `min(wrong, n)` chips are lost |
| `View.ChipsInPlay` | App.tsx:69-70 | while the count is at most `n - 1`, the lost chips equal the wrong count and the last catalog entry is never lost |
| `View.WordBoard` | App.tsx:87-97 | one slot per character. A slot is shown iff the game is lost or its letter was guessed. A shown slot carries its letter and is marked missed iff that letter was never guessed. Once over, every slot shows its letter. While not lost, every slot is shown iff the game is won |
| `View.KeyFor` | App.tsx:99-113 | the classification of one key: correct, wrong, disabled, aria-disabled |
| `View.Keyboard` | App.tsx:99-119 | one key per letter `a`–`z`, in order. Each key is correct iff guessed and in the word, and wrong iff guessed and not in the word, never both. Each is disabled iff the game is over, and aria-disabled iff guessed |
| `View.WrongKeysAreWrongLetters` | App.tsx:99-106 | over distinct letters, the number of keys marked wrong is the number of those letters guessed and absent from the word |
| `View.AlphabetIsDistinct` | App.tsx:28 | the alphabet has no repeated letter |
| `View.KeyboardAgreesWithWrongCount` | App.tsx:99-106 | for distinct keyboard guesses, the keys marked wrong number exactly `wrongGuessCount`, which is also the number of lost chips |
| `View.GameStatus` | App.tsx:128-155 | the farewell branch is taken iff the game is not over and the last guess was wrong. The farewell index is `wrongGuessCount - 1`, which is a valid catalog index (`< n`, never negative). The win message shows iff won. The loss message shows iff lost and not won. Nothing shows otherwise |
| `View.AttemptsBanner` | App.tsx:212-215 | the banner shows iff the game is not over. It then shows at least one, and its figure plus the wrong count is `n - 1` |
| `View.RevealTokens` | App.tsx:202-204 | one token per letter of the word: the letter and a full stop if guessed, `blank.` otherwise |
| `View.Reveal` | App.tsx:202-204 | the tokens joined by single spaces. The string is empty iff the word is |
| `View.RevealReadsBack` | App.tsx:202-204 | for a non-empty word without spaces, splitting the joined announcement at spaces gives back exactly the tokens, one per letter. Token `i` is `blank.` iff letter `i` is unguessed |
| `Util.HasSubstring` | App.tsx:196 | `includes` with a string argument. A found substring is no longer than the string, and a prefix is always found. The two lemmas below give the full meaning |
| `Util.HasSubstringOccurs` | App.tsx:196 | if `HasSubstring(s, sub)` holds, `sub` occurs in `s` at some position `i` that the lemma returns |
| `Util.OccursHasSubstring` | App.tsx:196 | if `sub` occurs in `s` at any position, `HasSubstring(s, sub)` holds. With the lemma above, found iff `sub` occurs at some position |
| `View.LastGuessCorrect` | App.tsx:196-198 | after a guess, the "Correct!" sentence is chosen iff the last guess is not incorrect. Before any guess it is chosen iff the word contains the substring `undefined`, so never for a word shorter than nine letters |
| `View.AnnouncementAsWritten` | App.tsx:195-204 | the live region as written differs from the corrected one only in its attempts figure, which is too high by exactly the wrong count |
| `View.AnnouncementAsWrittenMisreportsAttempts` | App.tsx:200 | as written, after any wrong guess in a game that is not over, the announced attempts differ from the attempts banner |
| `View.AnnouncementAsWrittenOnGo` | App.tsx:200 | for the word `go` with nine languages, after a wrong `q` the announcement says 8 while the banner says 7 |
| `View.Announcement` | App.tsx:195-204 | the corrected live region announces the remaining guesses, which agree with the banner while the game is not over. After a guess it says whether the last letter is in the word, and it carries the reveal string |
| `GameState.Game.constructor` | App.tsx:13-14 | the first state is the given word and no guesses, and it is valid |
| `GameState.Game.Guess` | App.tsx:30-36 | the word is unchanged. A repeated letter leaves the list as it was, and a new one is appended at the end. The wrong count rises by one exactly for a new letter absent from the word. `Valid()` is preserved |
| `GameState.ValidGameViewsAgree` | App.tsx:69-106 | in every valid game state, the keys marked wrong, the lost language chips and the wrong-guess count are equal, and the last catalog entry is never lost |
| `GameState.Game.NewGame` | App.tsx:38-41 | the word is replaced and the list emptied. `Valid()` holds. With a non-empty word and `n >= 2`, the new game is not over |

## Left out

- JSX markup, CSS class strings and `clsx` (including `gameStatusClass`, App.tsx:122-126): only the boolean flags they are built from are modelled.
- `Confetti` (an external component) and `LostAnimation` (App.tsx:43-66): both are decorative. The animation depends on `Math.random` and on floating-point formatting.
- `getRandomWord`, `getFarewellText` and the contents of `languages` are not part of this model. They live in other files, and the word draw is random. The word is an input and the catalog is its length `n`. `View.GameStatus` returns the catalog index that the farewell text is looked up by, not the text.
- React's `useState` scheduling and re-render timing: each handler is one atomic update of the fields.
- The exact user-facing sentences and display casing (`toUpperCase`), App.tsx:94, 117, 140-149, 196-200 and 214. Slots and keys carry the lowercase letter.
- Before the first guess, the live region reads `lastGuessedLetter` as the JavaScript value `undefined`. `includes` turns it into the string `"undefined"`, so "Sorry" is chosen for every word that does not contain the substring `undefined` and "Correct!" for every word that does. `View.LastGuessCorrect` models both cases. The sentence text that names the letter is not modelled.
- `split("")` (App.tsx:21, 87, 202) splits into UTF-16 code units, while a Dafny `string` is a sequence of Unicode scalar values. The two agree on the lowercase a–z words the game plays with. Characters outside the Basic Multilingual Plane are not modelled.
- `View.RevealReadsBack` is stated only for a non-empty word with no space in it. `"".split(" ")` yields one empty token, and a space inside the word would split a token.

## Findings

| source | as written | input that shows it | evidently intended | confidence | as-written member | corrected member |
|---|---|---|---|---|---|---|
| App.tsx:200 | the screen-reader region announces `numGuessesLeft`, which is the constant `languages.length - 1` | word `go`, nine languages, guesses `q`: 8 attempts announced, while the banner at App.tsx:214 shows 7 | announce the remaining guesses `numGuessesLeft - wrongGuessCount`, as the banner does | medium, not executed | `View.AnnouncementAsWritten` (shown by `View.AnnouncementAsWrittenMisreportsAttempts`, `View.AnnouncementAsWrittenOnGo`) | `View.Announcement` |
