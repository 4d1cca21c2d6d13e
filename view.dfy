/**
 * The per-slot decisions of each render (App.tsx:69-215): which language
 * chips are lost, what each slot of the word board shows, how each keyboard
 * key is classified, which status message is shown, the attempts banner and
 * the screen-reader announcement. Markup, class strings and display casing
 * are not modelled; each slot is reduced to the flags it is built from.
 */
module View {
  import opened Util
  import opened Endgame

  // ---------------------------------------------------------------- chips

  /** One flag per catalog entry: entry `i` is lost when `i < wrong`. */
  function LanguageChips(n: nat, wrong: nat): (lost: seq<bool>)
    ensures |lost| == n
    ensures forall i :: 0 <= i < n ==> (lost[i] <==> i < wrong)
  {
    seq(n, i => i < wrong)
  }

  /** Lives are consumed in catalog order: exactly `min(wrong, n)` chips are lost. */
  lemma {:induction false} LostChipCount(n: nat, wrong: nat)
    ensures CountTrue(LanguageChips(n, wrong)) == if wrong <= n then wrong else n
  {
    if n > 0 {
      var chips := LanguageChips(n, wrong);
      assert chips[..n - 1] == LanguageChips(n - 1, wrong);
      LostChipCount(n - 1, wrong);
    }
  }

  /**
   * In a game that is not past its last life the lost chips number exactly
   * the wrong guesses, and the last catalog entry is never lost.
   */
  lemma ChipsInPlay(word: string, guessed: seq<char>, n: nat)
    requires n >= 1 && WrongGuessCount(word, guessed) <= n - 1
    ensures var chips := LanguageChips(n, WrongGuessCount(word, guessed));
            CountTrue(chips) == WrongGuessCount(word, guessed) && !chips[n - 1]
  {
    LostChipCount(n, WrongGuessCount(word, guessed));
  }

  // ----------------------------------------------------------- word board

  /** A slot of the word board: blank, or a letter shown (possibly marked missed). */
  datatype Slot = Blank | Shown(letter: char, missed: bool)

  /**
   * One slot per character of the word. A slot shows its letter when the
   * game is lost or the letter was guessed; a shown slot is marked missed
   * when the game is lost and the letter was never guessed.
   */
  function WordBoard(word: string, guessed: seq<char>, n: nat): (board: seq<Slot>)
    ensures |board| == |word|
    ensures forall i :: 0 <= i < |word| ==>
              (board[i].Shown? <==> IsGameLost(word, guessed, n) || word[i] in guessed)
    ensures forall i :: 0 <= i < |word| && board[i].Shown? ==>
              board[i].letter == word[i] && (board[i].missed <==> word[i] !in guessed)
    ensures IsGameOver(word, guessed, n) ==>
              forall i :: 0 <= i < |word| ==> board[i] == Shown(word[i], word[i] !in guessed)
    ensures !IsGameLost(word, guessed, n) ==>
              (IsGameWon(word, guessed) <==> forall i :: 0 <= i < |word| ==> board[i].Shown?)
  {
    var lost := IsGameLost(word, guessed, n);
    seq(|word|, i requires 0 <= i < |word| =>
      if lost || word[i] in guessed then Shown(word[i], lost && word[i] !in guessed) else Blank)
  }

  // ------------------------------------------------------------- keyboard

  /** A keyboard key: its letter and the flags its button is built from. */
  datatype Key = Key(letter: char, correct: bool, wrong: bool, disabled: bool, ariaDisabled: bool)

  function KeyFor(letter: char, word: string, guessed: seq<char>, over: bool): (k: Key)
    ensures k.letter == letter && !(k.correct && k.wrong)
    ensures k.correct <==> letter in guessed && letter in word
    ensures k.wrong <==> letter in guessed && letter !in word
    ensures k.disabled == over && (k.ariaDisabled <==> letter in guessed)
  {
    var isGuessed := letter in guessed;
    Key(letter, isGuessed && letter in word, isGuessed && letter !in word, over, isGuessed)
  }

  /**
   * One key per alphabet letter. A key is correct when its letter was
   * guessed and is in the word, wrong when guessed and not in the word, never
   * both; every key is disabled once the game is over.
   */
  function Keyboard(word: string, guessed: seq<char>, n: nat): (keys: seq<Key>)
    ensures |keys| == |Alphabet|
    ensures forall i :: 0 <= i < |keys| ==>
              keys[i].letter == Alphabet[i] &&
              !(keys[i].correct && keys[i].wrong) &&
              (keys[i].correct <==> Alphabet[i] in guessed && Alphabet[i] in word) &&
              (keys[i].wrong <==> Alphabet[i] in guessed && Alphabet[i] !in word) &&
              (keys[i].disabled <==> IsGameOver(word, guessed, n)) &&
              (keys[i].ariaDisabled <==> Alphabet[i] in guessed)
  {
    var over := IsGameOver(word, guessed, n);
    seq(|Alphabet|, i requires 0 <= i < |Alphabet| => KeyFor(Alphabet[i], word, guessed, over))
  }

  /** Which keys are marked wrong, counted with `CountTrue`. */
  function WrongFlags(keys: seq<Key>): (flags: seq<bool>)
    ensures |flags| == |keys|
    ensures forall i :: 0 <= i < |keys| ==> (flags[i] <==> keys[i].wrong)
  {
    seq(|keys|, i requires 0 <= i < |keys| => keys[i].wrong)
  }

  /** Over distinct letters, the keys marked wrong are the guessed letters not in the word. */
  lemma {:induction false} WrongKeysAreWrongLetters(keys: seq<Key>, letters: string, word: string, guessed: seq<char>)
    requires NoDup(letters) && |keys| == |letters|
    requires forall i :: 0 <= i < |keys| ==> (keys[i].wrong <==> letters[i] in guessed && letters[i] !in word)
    ensures CountTrue(WrongFlags(keys)) == |set c | c in letters && c in guessed && c !in word|
    decreases |letters|
  {
    if letters != [] {
      var m := |letters| - 1;
      var front, last := letters[..m], letters[m];
      NoDupFront(letters);
      WrongKeysAreWrongLetters(keys[..m], front, word, guessed);
      WrongFlagsStep(keys);
      WrongSetGrows(letters, word, guessed);
    }
  }

  lemma NoDupFront(letters: string)
    requires NoDup(letters) && letters != []
    ensures NoDup(letters[..|letters| - 1]) && letters[|letters| - 1] !in letters[..|letters| - 1]
  {
    var front := letters[..|letters| - 1];
    forall k | 0 <= k < |front| ensures front[k] != letters[|letters| - 1] {
      assert front[k] == letters[k];
    }
  }

  lemma WrongFlagsStep(keys: seq<Key>)
    requires keys != []
    ensures CountTrue(WrongFlags(keys))
         == CountTrue(WrongFlags(keys[..|keys| - 1])) + (if keys[|keys| - 1].wrong then 1 else 0)
  {
    assert WrongFlags(keys)[..|keys| - 1] == WrongFlags(keys[..|keys| - 1]);
  }

  lemma WrongSetGrows(letters: string, word: string, guessed: seq<char>)
    requires letters != [] && letters[|letters| - 1] !in letters[..|letters| - 1]
    ensures |set c | c in letters && c in guessed && c !in word|
         == |set c | c in letters[..|letters| - 1] && c in guessed && c !in word|
            + (if letters[|letters| - 1] in guessed && letters[|letters| - 1] !in word then 1 else 0)
  {
    var front, last := letters[..|letters| - 1], letters[|letters| - 1];
    assert letters == front + [last];
    var here := set c | c in letters && c in guessed && c !in word;
    var there := set c | c in front && c in guessed && c !in word;
    if last in guessed && last !in word {
      assert here == {last} + there;
    } else {
      assert here == there;
    }
  }

  lemma AlphabetIsDistinct()
    ensures NoDup(Alphabet)
  {
    assert forall i :: 0 <= i < |Alphabet| ==> Alphabet[i] as int == 'a' as int + i;
  }

  /**
   * When every guess came from the keyboard and none is repeated, the keys
   * marked wrong number exactly the wrong guesses, i.e. the lost chips.
   */
  lemma KeyboardAgreesWithWrongCount(word: string, guessed: seq<char>, n: nat)
    requires NoDup(guessed) && Elems(guessed) <= Elems(Alphabet)
    ensures CountTrue(WrongFlags(Keyboard(word, guessed, n))) == WrongGuessCount(word, guessed)
  {
    AlphabetIsDistinct();
    var keys := Keyboard(word, guessed, n);
    WrongKeysAreWrongLetters(keys, Alphabet, word, guessed);
    WrongGuessCountDistinct(word, guessed);
    assert (set c | c in Alphabet && c in guessed && c !in word) == (set c | c in guessed && c !in word) by {
      forall c | c in guessed ensures c in Alphabet {
        assert c in Elems(guessed);
      }
    }
  }

  // --------------------------------------------------------------- status

  /** What the status region shows. */
  datatype Status = Farewell(language: nat) | YouWin | GameOver | NoStatus

  /**
   * `renderGameStatus`: a farewell to catalog entry `wrongGuessCount - 1`
   * while the game is on and the last guess was wrong, the win message once
   * won, the loss message once lost, nothing otherwise. The farewell entry
   * is always a valid index into the catalog.
   */
  function GameStatus(word: string, guessed: seq<char>, n: nat): (s: Status)
    ensures s.Farewell? <==> !IsGameOver(word, guessed, n) && IsLastGuessIncorrect(word, guessed)
    ensures s.Farewell? ==> s.language < n && s.language == WrongGuessCount(word, guessed) - 1
    ensures s == YouWin <==> IsGameWon(word, guessed)
    ensures s == GameOver <==> IsGameLost(word, guessed, n) && !IsGameWon(word, guessed)
    ensures s == NoStatus <==> !IsGameOver(word, guessed, n) && !IsLastGuessIncorrect(word, guessed)
  {
    if !IsGameOver(word, guessed, n) && IsLastGuessIncorrect(word, guessed) then
      LastGuessIncorrectIsCounted(word, guessed);
      Farewell(WrongGuessCount(word, guessed) - 1)
    else if IsGameWon(word, guessed) then YouWin
    else if IsGameLost(word, guessed, n) then GameOver
    else NoStatus
  }

  // ------------------------------------------------------ attempts banner

  /** The "guesses left" banner, present only while the game is on; it always shows at least one. */
  function AttemptsBanner(word: string, guessed: seq<char>, n: nat): (left: Option<int>)
    ensures left.Some? <==> !IsGameOver(word, guessed, n)
    ensures left.Some? ==> left.value >= 1 && left.value + WrongGuessCount(word, guessed) == n - 1
  {
    if IsGameOver(word, guessed, n) then None else Some(RemainingGuesses(word, guessed, n))
  }

  // ---------------------------------------------------- screen reader

  /** Per letter of the word: the letter and a full stop when guessed, `blank.` otherwise. */
  function RevealTokens(word: string, guessed: seq<char>): (tokens: seq<string>)
    ensures |tokens| == |word|
    ensures forall i :: 0 <= i < |word| ==>
              tokens[i] == if word[i] in guessed then [word[i], '.'] else "blank."
  {
    seq(|word|, i requires 0 <= i < |word| =>
      if word[i] in guessed then [word[i], '.'] else "blank.")
  }

  /** The tokens joined by single spaces; empty only for the empty word. */
  function Reveal(word: string, guessed: seq<char>): (text: string)
    ensures text == "" <==> word == []
  {
    var tokens := RevealTokens(word, guessed);
    assert word != [] ==> |tokens[0]| > 0;
    Join(tokens, ' ')
  }

  /**
   * For a non-empty word without spaces the announcement can be read back:
   * splitting it at spaces gives back the tokens, one per letter, and token
   * `i` is `blank.` exactly when letter `i` has not been guessed.
   */
  lemma RevealReadsBack(word: string, guessed: seq<char>)
    requires |word| > 0 && ' ' !in word
    ensures Split(Reveal(word, guessed), ' ') == RevealTokens(word, guessed)
    ensures |Split(Reveal(word, guessed), ' ')| == |word|
    ensures forall i :: 0 <= i < |word| ==>
              (Split(Reveal(word, guessed), ' ')[i] == "blank." <==> word[i] !in guessed)
  {
    var tokens := RevealTokens(word, guessed);
    forall i | 0 <= i < |tokens| ensures ' ' !in tokens[i] {
      assert word[i] in word;
    }
    SplitJoin(tokens, ' ');
    forall i | 0 <= i < |word| ensures tokens[i] == "blank." <==> word[i] !in guessed {
      if word[i] in guessed {
        assert |tokens[i]| == 2;
      }
    }
  }

  /** The live-region announcement: whether the last guess was right, attempts left, and the reveal string. */
  datatype LiveRegion = LiveRegion(lastCorrect: bool, attemptsLeft: int, currentWord: string)

  /**
   * `currentWord.includes(lastGuessedLetter)`. After a guess it says whether
   * the last letter is in the word. Before any guess the argument is
   * `undefined`, which `includes` reads as the string `"undefined"`: only a
   * word containing that substring gets the "Correct!" sentence then.
   */
  function LastGuessCorrect(word: string, guessed: seq<char>): (correct: bool)
    ensures guessed != [] ==> (correct <==> !IsLastGuessIncorrect(word, guessed))
    ensures guessed == [] ==> (correct <==> HasSubstring(word, "undefined"))
    ensures guessed == [] && |word| < 9 ==> !correct
  {
    match LastGuessedLetter(guessed)
    case None => HasSubstring(word, "undefined")
    case Some(c) => c in word
  }

  /** The announcement as App.tsx:195-204 builds it: the attempts figure is `n - 1` whatever was guessed. */
  function AnnouncementAsWritten(word: string, guessed: seq<char>, n: nat): (a: LiveRegion)
    ensures a.lastCorrect == Announcement(word, guessed, n).lastCorrect
    ensures a.currentWord == Announcement(word, guessed, n).currentWord
    ensures a.attemptsLeft == Announcement(word, guessed, n).attemptsLeft + WrongGuessCount(word, guessed)
  {
    LiveRegion(LastGuessCorrect(word, guessed), n - 1, Reveal(word, guessed))
  }

  /** As written, after any wrong guess the announced attempts disagree with the banner. */
  lemma AnnouncementAsWrittenMisreportsAttempts(word: string, guessed: seq<char>, n: nat)
    requires !IsGameOver(word, guessed, n) && WrongGuessCount(word, guessed) >= 1
    ensures AttemptsBanner(word, guessed, n).Some?
    ensures AnnouncementAsWritten(word, guessed, n).attemptsLeft != AttemptsBanner(word, guessed, n).value
  {
  }

  /** A concrete case: word `go`, nine languages, one wrong guess `q`: 8 announced, 7 left. */
  lemma AnnouncementAsWrittenOnGo()
    ensures AnnouncementAsWritten("go", "q", 9).attemptsLeft == 8
    ensures AttemptsBanner("go", "q", 9) == Some(7)
  {
    assert WrongLetters("go", "q") == "q";
  }

  /** The announcement with the remaining count, agreeing with the attempts banner while the game is on. */
  function Announcement(word: string, guessed: seq<char>, n: nat): (a: LiveRegion)
    ensures a.attemptsLeft == RemainingGuesses(word, guessed, n)
    ensures !IsGameOver(word, guessed, n) ==> Some(a.attemptsLeft) == AttemptsBanner(word, guessed, n)
    ensures guessed != [] ==> (a.lastCorrect <==> guessed[|guessed| - 1] in word)
    ensures a.currentWord == Reveal(word, guessed)
  {
    LiveRegion(LastGuessCorrect(word, guessed), RemainingGuesses(word, guessed, n), Reveal(word, guessed))
  }
}
