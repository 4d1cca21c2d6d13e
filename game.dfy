/**
 * The game component's state: the target word and the guessed letters,
 * replaced as a whole by the two event handlers (App.tsx:13-14, 30-41).
 */
module GameState {
  import opened Util
  import opened Endgame
  import View

  class Game {
    /** The number of catalog entries (`languages.length`). */
    const n: nat
    var word: string
    var guessed: seq<char>

    /**
     * What every reachable state satisfies: the catalog is not empty, the
     * guessed letters are distinct keyboard letters, the wrong count never
     * passes `n - 1`, and the game is won and lost at once only in the
     * degenerate case of an empty word with a single language.
     */
    ghost predicate Valid()
      reads this
    {
      n >= 1 &&
      NoDup(guessed) && Elems(guessed) <= Elems(Alphabet) &&
      WrongGuessCount(word, guessed) <= n - 1 &&
      (IsGameWon(word, guessed) && IsGameLost(word, guessed, n) ==> |word| == 0 && n == 1)
    }

    /** The first render: the word drawn for the first game and no guesses. */
    constructor (firstWord: string, catalogSize: nat)
      requires catalogSize >= 1
      ensures Valid()
      ensures n == catalogSize && word == firstWord && guessed == []
    {
      n := catalogSize;
      word := firstWord;
      guessed := [];
    }

    /**
     * `addGuessedLetter`, reached only through an enabled keyboard key: the
     * letter is a keyboard letter and the game is not over. A repeated letter
     * leaves the list alone; a new one is appended. The word never changes.
     */
    method Guess(letter: char)
      requires Valid()
      requires letter in Alphabet && !IsGameOver(word, guessed, n)
      modifies this`guessed
      ensures Valid()
      ensures word == old(word)
      ensures letter in old(guessed) ==> guessed == old(guessed)
      ensures letter !in old(guessed) ==> guessed == old(guessed) + [letter]
      ensures WrongGuessCount(word, guessed)
           == old(WrongGuessCount(word, guessed)) + (if letter in old(guessed) || letter in word then 0 else 1)
    {
      GuessKeepsWonAndLostApart(word, guessed, letter, n);
      GuessStaysWithinLives(word, guessed, letter, n);
      if letter !in guessed {
        WrongGuessCountAppend(word, guessed, letter);
      }
      assert letter in Elems(Alphabet);
      guessed := AddGuessedLetter(guessed, letter);
    }

    /** `startNewGame`: a fresh word and no guesses. */
    method NewGame(nextWord: string)
      requires Valid()
      modifies this`word, this`guessed
      ensures Valid()
      ensures word == nextWord && guessed == []
      ensures |word| > 0 && n >= 2 ==> !IsGameOver(word, guessed, n)
    {
      word := nextWord;
      guessed := [];
      if |word| > 0 && n >= 2 {
        NewGameIsInPlay(word, n);
      }
    }
  }

  /**
   * In every valid state the keys marked wrong, the lost language chips and
   * the wrong-guess count agree, and the last catalog entry is never lost.
   */
  lemma ValidGameViewsAgree(game: Game)
    requires game.Valid()
    ensures var wrong := WrongGuessCount(game.word, game.guessed);
            var chips := View.LanguageChips(game.n, wrong);
            CountTrue(View.WrongFlags(View.Keyboard(game.word, game.guessed, game.n))) == wrong &&
            CountTrue(chips) == wrong && !chips[game.n - 1]
  {
    View.KeyboardAgreesWithWrongCount(game.word, game.guessed, game.n);
    View.ChipsInPlay(game.word, game.guessed, game.n);
  }

  /** Driven only through the class contracts: `go` with nine languages is lost after eight wrong letters. */
  method LossScenario() {
    var game := new Game("go", 9);
    var wrong := "qwertyui";
    var k := 0;
    while k < |wrong|
      invariant 0 <= k <= |wrong|
      invariant game.Valid() && game.word == "go" && game.n == 9
      invariant game.guessed == wrong[..k]
      invariant WrongGuessCount(game.word, game.guessed) == k
      modifies game
    {
      LossScenarioStep(k);
      game.Guess(wrong[k]);
      assert wrong[..k + 1] == wrong[..k] + [wrong[k]];
      k := k + 1;
    }
    assert IsGameLost(game.word, game.guessed, game.n);
  }

  lemma LossScenarioStep(k: nat)
    requires k < 8
    ensures "qwertyui"[k] in Alphabet && "qwertyui"[k] !in "go"
    ensures !IsGameWon("go", "qwertyui"[..k])
  {
    assert "go"[0] !in "qwertyui"[..k];
  }

  /** Driven only through the class contracts: `go` is won by guessing `g` and then `o`. */
  method WinScenario() {
    var game := new Game("go", 9);
    game.Guess('g');
    assert !IsGameWon(game.word, game.guessed) by {
      assert game.word[1] !in game.guessed;
    }
    game.Guess('o');
    assert IsGameWon(game.word, game.guessed);
  }
}
