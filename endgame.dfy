/**
 * The game's state values and everything derived from them on each render:
 * the target word, the ordered list of guessed letters, the wrong-guess
 * count, the won / lost / over flags and the last guess (App.tsx:13-41).
 * The catalog length `n` is the number of languages; `n - 1` wrong guesses
 * lose the game.
 */
module Endgame {
  import opened Util

  /** The letters the keyboard offers, in order. */
  const Alphabet: string := "abcdefghijklmnopqrstuvwxyz"

  /**
   * The updater `addGuessedLetter` hands to the state setter: the list is
   * kept as it is when the letter is already in it, and otherwise gets the
   * letter appended at the end.
   */
  function AddGuessedLetter(guessed: seq<char>, letter: char): (r: seq<char>)
    ensures letter in r
    ensures |guessed| <= |r| <= |guessed| + 1 && r[..|guessed|] == guessed
    ensures |r| == |guessed| <==> letter in guessed
    ensures Elems(r) == Elems(guessed) + {letter}
    ensures NoDup(guessed) ==> NoDup(r)
  {
    if letter in guessed then guessed else guessed + [letter]
  }

  /** `guessedLetters.filter(letter => !currentWord.includes(letter))`. */
  function WrongLetters(word: string, guessed: seq<char>): (r: seq<char>)
    ensures |r| <= |guessed|
    ensures forall c :: c in r <==> c in guessed && c !in word
    ensures NoDup(guessed) ==> NoDup(r)
    decreases |guessed|
  {
    if guessed == [] then []
    else
      var rest := WrongLetters(word, guessed[1..]);
      if guessed[0] in word then rest else [guessed[0]] + rest
  }

  /** How many guessed letters are not in the word. */
  function WrongGuessCount(word: string, guessed: seq<char>): (count: nat)
    ensures count <= |guessed|
    ensures count == 0 <==> forall c :: c in guessed ==> c in word
  {
    var r := WrongLetters(word, guessed);
    assert r != [] ==> r[0] in r;
    |r|
  }

  /** `currentWord.split("").every(letter => guessedLetters.includes(letter))`. */
  function IsGameWon(word: string, guessed: seq<char>): (won: bool)
    ensures won <==> forall i :: 0 <= i < |word| ==> word[i] in guessed
    ensures won <==> Elems(word) <= Elems(guessed)
    decreases |word|
  {
    if word == [] then true
    else
      var rest := IsGameWon(word[1..], guessed);
      assert forall i :: 1 <= i < |word| ==> word[i] == word[1..][i - 1];
      assert Elems(word) == {word[0]} + Elems(word[1..]);
      word[0] in guessed && rest
  }

  /**
   * The game is lost once the wrong guesses reach `n - 1`; a single-language
   * catalog is lost from the start, and losing takes at least `n - 1` guesses.
   */
  predicate IsGameLost(word: string, guessed: seq<char>, n: nat): (lost: bool)
    ensures n <= 1 ==> lost
    ensures lost ==> |guessed| >= n - 1
    ensures lost <==> |WrongLetters(word, guessed)| >= n - 1
  {
    WrongGuessCount(word, guessed) >= n - 1
  }

  /**
   * Won or lost. While the game is not over a life is left and some letter
   * of the word is still unguessed.
   */
  predicate IsGameOver(word: string, guessed: seq<char>, n: nat): (over: bool)
    ensures !over ==> WrongGuessCount(word, guessed) < n - 1
    ensures !over ==> exists i :: 0 <= i < |word| && word[i] !in guessed
    ensures IsGameWon(word, guessed) ==> over
  {
    IsGameWon(word, guessed) || IsGameLost(word, guessed, n)
  }

  /** `guessedLetters[guessedLetters.length - 1]`, absent before the first guess. */
  function LastGuessedLetter(guessed: seq<char>): (last: Option<char>)
    ensures last.None? <==> guessed == []
    ensures last.Some? ==> last.value in guessed && guessed == guessed[..|guessed| - 1] + [last.value]
  {
    if guessed == [] then None else Some(guessed[|guessed| - 1])
  }

  /** `lastGuessedLetter && !currentWord.includes(lastGuessedLetter)`, read as a boolean. */
  predicate IsLastGuessIncorrect(word: string, guessed: seq<char>): (incorrect: bool)
    ensures incorrect <==> guessed != [] && guessed[|guessed| - 1] in WrongLetters(word, guessed)
  {
    match LastGuessedLetter(guessed)
    case None => false
    case Some(c) => c !in word
  }

  /** The guesses left, as the attempts banner shows them (App.tsx:214). */
  function RemainingGuesses(word: string, guessed: seq<char>, n: nat): (left: int)
    ensures left <= n - 1
    ensures IsGameLost(word, guessed, n) <==> left <= 0
    ensures !IsGameOver(word, guessed, n) ==> left >= 1
  {
    (n - 1) - WrongGuessCount(word, guessed)
  }

  /** The list after a series of clicks on the given letters, in order. */
  function ApplyGuesses(guessed: seq<char>, letters: seq<char>): (r: seq<char>)
    ensures |guessed| <= |r| && r[..|guessed|] == guessed
    ensures Elems(r) == Elems(guessed) + Elems(letters)
    ensures NoDup(guessed) ==> NoDup(r)
    ensures |letters| == 1 ==> r == AddGuessedLetter(guessed, letters[0])
    decreases |letters|
  {
    if letters == [] then guessed
    else
      var next := AddGuessedLetter(guessed, letters[0]);
      var r := ApplyGuesses(next, letters[1..]);
      assert Elems(letters) == {letters[0]} + Elems(letters[1..]);
      assert r[..|guessed|] == next[..|guessed|];
      r
  }

  /** A guess adds one to the wrong count when the letter is not in the word, and nothing otherwise. */
  lemma {:induction false} WrongGuessCountAppend(word: string, guessed: seq<char>, letter: char)
    ensures WrongLetters(word, guessed + [letter])
         == WrongLetters(word, guessed) + (if letter in word then [] else [letter])
    ensures WrongGuessCount(word, guessed + [letter])
         == WrongGuessCount(word, guessed) + (if letter in word then 0 else 1)
    decreases |guessed|
  {
    if guessed == [] {
      assert [] + [letter] == [letter];
      assert [letter][1..] == [];
    } else {
      assert (guessed + [letter])[1..] == guessed[1..] + [letter];
      WrongGuessCountAppend(word, guessed[1..], letter);
    }
  }

  /** On a duplicate-free list the wrong count is the number of distinct guessed letters not in the word. */
  lemma WrongGuessCountDistinct(word: string, guessed: seq<char>)
    requires NoDup(guessed)
    ensures WrongGuessCount(word, guessed) == |set c | c in guessed && c !in word|
  {
    var r := WrongLetters(word, guessed);
    DistinctCard(r);
    assert Elems(r) == set c | c in guessed && c !in word;
  }

  /** On a duplicate-free list, lost means at least `n - 1` distinct wrong letters. */
  lemma GameLostByDistinctWrongLetters(word: string, guessed: seq<char>, n: nat)
    requires NoDup(guessed)
    ensures IsGameLost(word, guessed, n) <==> |set c | c in guessed && c !in word| >= n - 1
  {
    WrongGuessCountDistinct(word, guessed);
  }

  /** An incorrect last guess has been counted, so the wrong count is at least one. */
  lemma LastGuessIncorrectIsCounted(word: string, guessed: seq<char>)
    requires IsLastGuessIncorrect(word, guessed)
    ensures WrongGuessCount(word, guessed) >= 1
  {
    var front := guessed[..|guessed| - 1];
    WrongGuessCountAppend(word, front, guessed[|guessed| - 1]);
    assert front + [guessed[|guessed| - 1]] == guessed;
  }

  /**
   * A guess made while the game is on never makes it won and lost at once:
   * a correct letter leaves the wrong count alone, and a wrong one cannot
   * complete the word.
   */
  lemma GuessKeepsWonAndLostApart(word: string, guessed: seq<char>, letter: char, n: nat)
    requires !IsGameOver(word, guessed, n)
    ensures var after := AddGuessedLetter(guessed, letter);
            !(IsGameWon(word, after) && IsGameLost(word, after, n))
  {
    var after := AddGuessedLetter(guessed, letter);
    if letter !in guessed {
      WrongGuessCountAppend(word, guessed, letter);
      if letter !in word {
        var i :| 0 <= i < |word| && word[i] !in guessed;
        assert word[i] !in after;
      }
    }
  }

  /** A guess made while the game is on leaves the wrong count at most `n - 1`. */
  lemma GuessStaysWithinLives(word: string, guessed: seq<char>, letter: char, n: nat)
    requires !IsGameOver(word, guessed, n)
    ensures WrongGuessCount(word, AddGuessedLetter(guessed, letter)) <= n - 1
    ensures WrongGuessCount(word, AddGuessedLetter(guessed, letter)) <= WrongGuessCount(word, guessed) + 1
  {
    if letter !in guessed {
      WrongGuessCountAppend(word, guessed, letter);
    }
  }

  /** A fresh game on a non-empty word with at least two languages is neither won nor lost. */
  lemma NewGameIsInPlay(word: string, n: nat)
    requires |word| > 0 && n >= 2
    ensures !IsGameWon(word, []) && !IsGameLost(word, [], n)
    ensures WrongGuessCount(word, []) == 0 && RemainingGuesses(word, [], n) == n - 1
  {
    assert word[0] !in [];
  }

  /** Clicking letters already in the list leaves it unchanged. */
  lemma {:induction false} ReguessingChangesNothing(guessed: seq<char>, letters: seq<char>)
    requires Elems(letters) <= Elems(guessed)
    ensures ApplyGuesses(guessed, letters) == guessed
    decreases |letters|
  {
    if letters != [] {
      assert letters[0] in Elems(letters);
      assert Elems(letters[1..]) <= Elems(letters);
      ReguessingChangesNothing(guessed, letters[1..]);
    }
  }

  lemma {:induction false} ApplyGuessesAppend(guessed: seq<char>, a: seq<char>, b: seq<char>)
    ensures ApplyGuesses(guessed, a + b) == ApplyGuesses(ApplyGuesses(guessed, a), b)
    decreases |a|
  {
    if a == [] {
      assert a + b == b;
    } else {
      assert (a + b)[0] == a[0] && (a + b)[1..] == a[1..] + b;
      ApplyGuessesAppend(AddGuessedLetter(guessed, a[0]), a[1..], b);
    }
  }

  /** Clicking the same series of letters a second time changes nothing. */
  lemma GuessingTwiceIsGuessingOnce(guessed: seq<char>, letters: seq<char>)
    ensures ApplyGuesses(guessed, letters + letters) == ApplyGuesses(guessed, letters)
  {
    ApplyGuessesAppend(guessed, letters, letters);
    ReguessingChangesNothing(ApplyGuesses(guessed, letters), letters);
  }

  /**
   * For every series of clicks from a fresh game, the wrong count is the
   * number of distinct clicked letters that are not in the word.
   */
  lemma WrongGuessCountOfClicks(word: string, letters: seq<char>)
    ensures WrongGuessCount(word, ApplyGuesses([], letters)) == |set c | c in letters && c !in word|
  {
    var g := ApplyGuesses([], letters);
    var none: seq<char> := [];
    assert Elems(none) == {};
    WrongGuessCountDistinct(word, g);
    SameLettersSameWrongSet(word, g, letters);
  }

  lemma SameLettersSameWrongSet(word: string, a: seq<char>, b: seq<char>)
    requires Elems(a) == Elems(b)
    ensures (set c | c in a && c !in word) == (set c | c in b && c !in word)
  {
    forall c ensures c in a <==> c in b {
      assert c in a <==> c in Elems(a);
      assert c in b <==> c in Elems(b);
    }
  }
}
